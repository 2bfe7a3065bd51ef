/**
 CuckooCache: a fixed table in which every element has eight places. Insertion displaces
 elements, erasing only marks them, and old ones are marked in epochs.
 */
module Cuckoo {
  import opened Common
  import opened ArithModel

  type Element = int

  // ---------------------------------------------------------------- the packed flags

  function Mask(k: nat): bv8 {
    if k == 0 then 1 else if k == 1 then 2 else if k == 2 then 4 else if k == 3 then 8
    else if k == 4 then 16 else if k == 5 then 32 else if k == 6 then 64 else 128
  }

  predicate On(b: bv8, k: nat) { Mask(k) & b != 0 }
  function WithOn(b: bv8, k: nat): bv8 { b | Mask(k) }
  function WithOff(b: bv8, k: nat): bv8 { b & (Mask(k) ^ 0xff) }

  predicate BitIsSet(mem: seq<bv8>, s: nat)
    requires s / 8 < |mem|
  {
    On(mem[s / 8], s % 8)
  }

  function BitSet(mem: seq<bv8>, s: nat): (r: seq<bv8>)
    requires s / 8 < |mem|
    ensures |r| == |mem|
  {
    mem[s / 8 := WithOn(mem[s / 8], s % 8)]
  }

  function BitUnset(mem: seq<bv8>, s: nat): (r: seq<bv8>)
    requires s / 8 < |mem|
    ensures |r| == |mem|
  {
    mem[s / 8 := WithOff(mem[s / 8], s % 8)]
  }

  lemma OneBitOnly(b: bv8, j: nat, k: nat)
    requires j < 8 && k < 8
    ensures On(WithOn(b, j), k) <==> j == k || On(b, k)
    ensures On(WithOff(b, j), k) <==> j != k && On(b, k)
  {
  }

  /** Each flag is set and unset alone. */
  lemma FlagsAreSeparate(mem: seq<bv8>, s: nat, t: nat)
    requires s / 8 < |mem| && t / 8 < |mem|
    ensures BitIsSet(BitSet(mem, s), t) <==> t == s || BitIsSet(mem, t)
    ensures BitIsSet(BitUnset(mem, s), t) <==> t != s && BitIsSet(mem, t)
  {
    hide On, WithOn, WithOff;
    if s / 8 == t / 8 {
      OneBitOnly(mem[s / 8], s % 8, t % 8);
    }
  }

  lemma AllSet(n: nat, s: nat)
    requires s < n
    ensures s / 8 < (n + 7) / 8 && BitIsSet(seq((n + 7) / 8, _ => 0xff), s)
  {
  }

  // ---------------------------------------------------------------- the table

  const WORD: nat := 0x1_0000_0000

  /** The high half of the product: a 32-bit number mapped onto a range. */
  function FastRange32(x: nat, n: nat): (r: nat)
    requires n > 0
    ensures r < n
  {
    Scaled(x % WORD, n);
    (x % WORD) * n / WORD
  }

  lemma Scaled(x: nat, n: nat)
    requires x < WORD && n > 0
    ensures 0 <= x * n / WORD < n
  {
    var p := x * n;
    MulMonotone(x + 1, WORD, n);
    Distribute(x, 1, n);
    assert 0 <= p < WORD * n;
  }

  /** The flags as booleans: a place is free when its element may be discarded. */
  function Free(mem: seq<bv8>, n: nat): (f: seq<bool>)
    requires |mem| == (n + 7) / 8
    ensures |f| == n && forall i :: 0 <= i < n ==> f[i] == BitIsSet(mem, i)
  {
    seq(n, i requires 0 <= i < n => BitIsSet(mem, i))
  }

  lemma FreeChanges(mem: seq<bv8>, n: nat, s: nat)
    requires |mem| == (n + 7) / 8 && s < n
    ensures Free(BitSet(mem, s), n) == Free(mem, n)[s := true]
    ensures Free(BitUnset(mem, s), n) == Free(mem, n)[s := false]
  {
    hide BitSet, BitUnset, BitIsSet;
    forall t | 0 <= t < n
      ensures BitIsSet(BitSet(mem, s), t) == (t == s || BitIsSet(mem, t))
      ensures BitIsSet(BitUnset(mem, s), t) == (t != s && BitIsSet(mem, t))
    {
      FlagsAreSeparate(mem, s, t);
    }
  }

  lemma FreeAtFirst(n: nat)
    ensures Free(seq((n + 7) / 8, _ => 0xff), n) == seq(n, _ => true)
  {
    var f := Free(seq((n + 7) / 8, _ => 0xff), n);
    forall s | 0 <= s < n ensures f[s] {
      AllSet(n, s);
    }
  }

  // ---------------------------------------------------------------- what is in the table

  /** The elements that may not be discarded. */
  ghost function Live(table: seq<Element>, free: seq<bool>): set<Element>
    requires |table| == |free|
  {
    set i | 0 <= i < |table| && !free[i] :: table[i]
  }

  /** The live elements of the current epoch. */
  ghost function RecentElements(table: seq<Element>, free: seq<bool>, epoch: seq<bool>): set<Element>
    requires |table| == |free| == |epoch|
  {
    set i | 0 <= i < |table| && !free[i] && epoch[i] :: table[i]
  }

  lemma LiveRecent(table: seq<Element>, free: seq<bool>, epoch: seq<bool>, free': seq<bool>)
    requires |table| == |free| == |epoch| == |free'|
    requires forall i :: 0 <= i < |free| ==> free'[i] == (free[i] || !epoch[i])
    ensures Live(table, free') == RecentElements(table, free, epoch)
  {
  }

  ghost predicate IsLive(table: seq<Element>, free: seq<bool>, e: Element)
    requires |table| == |free|
  {
    exists i :: 0 <= i < |table| && !free[i] && table[i] == e
  }

  lemma LiveIs(table: seq<Element>, free: seq<bool>, e: Element)
    requires |table| == |free|
    ensures e in Live(table, free) <==> IsLive(table, free, e)
  {
  }

  /** A place is taken: its element, if it was live there, may be gone. */
  lemma LivePut(table: seq<Element>, free: seq<bool>, i: nat, e: Element)
    requires |table| == |free| && i < |table|
    ensures free[i] ==> Live(table[i := e], free[i := false]) == Live(table, free) + {e}
    ensures !free[i] ==> Live(table[i := e], free) + {table[i]} == Live(table, free) + {e}
    ensures table[i] == e ==> Live(table, free[i := false]) == Live(table, free) + {e}
    ensures Live(table, free) - {table[i]} <= Live(table, free[i := true]) <= Live(table, free)
  {
    var t' := table[i := e];
    forall x ensures free[i] ==> (x in Live(t', free[i := false]) <==> x in Live(table, free) + {e})
             ensures !free[i] ==> (x in Live(t', free) + {table[i]} <==> x in Live(table, free) + {e})
             ensures table[i] == e ==> (x in Live(table, free[i := false]) <==> x in Live(table, free) + {e})
    {
      if k :| 0 <= k < |table| && !free[k] && table[k] == x {
        assert k != i ==> t'[k] == x;
      }
      assert t'[i] == e;
    }
    forall x | x in Live(table, free) - {table[i]} ensures x in Live(table, free[i := true]) {
      var k :| 0 <= k < |table| && !free[k] && table[k] == x;
      assert !free[i := true][k];
    }
    forall x | x in Live(table, free[i := true]) ensures x in Live(table, free) {
      var k :| 0 <= k < |table| && !free[i := true][k] && table[k] == x;
      assert !free[k];
    }
  }

  // ---------------------------------------------------------------- epochs

  /** The places of live elements of the current epoch. */
  function Recent(free: seq<bool>, epoch: seq<bool>): set<int>
    requires |free| == |epoch|
  {
    set i | 0 <= i < |free| && !free[i] && epoch[i]
  }

  lemma RecentPut(free: seq<bool>, epoch: seq<bool>, i: nat, recent: bool)
    requires |free| == |epoch| && i < |free|
    ensures var was := if !free[i] && epoch[i] then 1 else 0;
            |Recent(free[i := false], epoch[i := recent])| == |Recent(free, epoch)| - was + if recent then 1 else 0
  {
    var r, r' := Recent(free, epoch), Recent(free[i := false], epoch[i := recent]);
    var others := r - {i};
    forall k ensures k in r' <==> k in others || (recent && k == i) {}
    if recent {
      assert r' == others + {i};
    } else {
      assert r' == others;
    }
    if !free[i] && epoch[i] {
      assert r == others + {i};
    } else {
      assert r == others;
    }
  }

  /** An upper bound on what an epoch grows to. */
  function EpochLimit(epochSize: nat): nat {
    epochSize + Max(1, epochSize / 16)
  }

  class Cache {
    const hash: (nat, Element) -> nat
    const size: nat
    const epochSize: nat
    const depthLimit: nat
    var table: seq<Element>
    var collectionFlags: seq<bv8>
    var epochFlags: seq<bool>
    var epochHeuristicCounter: nat

    predicate Shaped()
      reads this
    {
      size >= 2 && epochSize >= 1 && |table| == size && |epochFlags| == size && |collectionFlags| == (size + 7) / 8
    }

    function Places(e: Element): (l: seq<nat>)
      requires size > 0
      ensures |l| == 8 && forall k :: 0 <= k < 8 ==> l[k] < size
    {
      [FastRange32(hash(0, e), size), FastRange32(hash(1, e), size), FastRange32(hash(2, e), size),
       FastRange32(hash(3, e), size), FastRange32(hash(4, e), size), FastRange32(hash(5, e), size),
       FastRange32(hash(6, e), size), FastRange32(hash(7, e), size)]
    }

    function FreePlaces(): (f: seq<bool>)
      requires Shaped()
      reads this
      ensures |f| == size
    {
      Free(collectionFlags, size)
    }

    ghost function LiveElements(): set<Element>
      requires Shaped()
      reads this
    {
      Live(table, FreePlaces())
    }

    ghost function RecentCount(): nat
      requires Shaped()
      reads this
    {
      |Recent(FreePlaces(), epochFlags)|
    }

    /** Every live element is in one of its own places, and epochs are bounded. */
    ghost predicate Valid()
      reads this
    {
      Shaped() && InOwnPlaces() && RecentCount() + epochHeuristicCounter <= EpochLimit(epochSize)
    }

    ghost predicate InOwnPlaces()
      requires Shaped()
      reads this
    {
      forall i :: 0 <= i < size && !FreePlaces()[i] ==> i in Places(table[i])
    }

    /** setup: any number of places from two on, none of them in use. */
    constructor (newSize: nat, hash: (nat, Element) -> nat, depthLimit: nat, blank: Element)
      requires newSize < WORD
      ensures Valid() && LiveElements() == {}
      ensures size == (if newSize < 2 then 2 else newSize) && this.hash == hash && this.depthLimit == depthLimit
      ensures epochSize == epochHeuristicCounter == Max(1, 45 * size % WORD / 100)
    {
      var n := if newSize < 2 then 2 else newSize;
      this.hash, size, this.depthLimit := hash, n, depthLimit;
      epochSize := Max(1, 45 * n % WORD / 100);
      table := seq(n, _ => blank);
      collectionFlags := seq((n + 7) / 8, _ => 0xff);
      epochFlags := seq(n, _ => false);
      epochHeuristicCounter := Max(1, 45 * n % WORD / 100);
      new;
      FreeAtFirst(size);
      assert LiveElements() == {};
      assert Recent(FreePlaces(), epochFlags) == {};
    }

    method AllowErase(n: nat)
      requires Shaped() && n < size
      modifies this`collectionFlags
      ensures Shaped() && FreePlaces() == old(FreePlaces())[n := true]
    {
      FreeChanges(collectionFlags, size, n);
      collectionFlags := BitSet(collectionFlags, n);
    }

    method PleaseKeep(n: nat)
      requires Shaped() && n < size
      modifies this`collectionFlags
      ensures Shaped() && FreePlaces() == old(FreePlaces())[n := false]
    {
      FreeChanges(collectionFlags, size, n);
      collectionFlags := BitUnset(collectionFlags, n);
    }

    /** The first of its places that an element is found in. */
    predicate FirstPlace(e: Element, k: int)
      requires Shaped()
      reads this
    {
      0 <= k < 8 && table[Places(e)[k]] == e && forall j :: 0 <= j < k ==> table[Places(e)[j]] != e
    }

    /** An element that is there already or finds one of its places free. */
    predicate HasRoom(e: Element)
      requires Shaped()
      reads this
    {
      || (exists k :: 0 <= k < 8 && table[Places(e)[k]] == e)
      || (depthLimit > 0 && exists k :: 0 <= k < 8 && FreePlaces()[Places(e)[k]])
    }

    /** Whether an element is found: it is whenever it is live. The table does not change, so the
        answer stays the same until the next insertion. */
    method Contains(e: Element, erase: bool) returns (found: bool)
      requires Valid()
      modifies this`collectionFlags
      ensures Valid() && (found <==> exists k :: 0 <= k < 8 && table[Places(e)[k]] == e)
      ensures e in old(LiveElements()) ==> found
      ensures old(LiveElements()) - (if erase then {e} else {}) <= LiveElements() <= old(LiveElements())
      ensures if found && erase
              then exists k :: FirstPlace(e, k) && FreePlaces() == old(FreePlaces())[Places(e)[k] := true]
              else collectionFlags == old(collectionFlags)
    {
      hide Free, Live, EpochLimit;
      var locs := Places(e);
      OwnPlace(e);
      for k := 0 to 8
        invariant forall j :: 0 <= j < k ==> table[locs[j]] != e
        invariant collectionFlags == old(collectionFlags)
      {
        if table[locs[k]] == e {
          if erase {
            ghost var free := FreePlaces();
            LivePut(table, free, locs[k], e);
            FreedRecent(free, epochFlags, locs[k]);
            AllowErase(locs[k]);
            assert FirstPlace(e, k);
          }
          return true;
        }
      }
      return false;
    }

    /** Ages the epochs when the current one may be full: what was live and not of the current
        epoch may be discarded from now on. */
    method EpochCheck() returns (ghost aged: bool)
      requires Valid()
      modifies this
      ensures Shaped() && InOwnPlaces() && table == old(table)
      ensures RecentCount() + 1 + epochHeuristicCounter <= EpochLimit(epochSize)
      ensures aged <==> old(epochHeuristicCounter) == 0 && old(RecentCount()) >= epochSize
      ensures epochHeuristicCounter ==
                if old(epochHeuristicCounter) > 0 then old(epochHeuristicCounter) - 1
                else if aged then epochSize else Max(Max(1, epochSize / 16), epochSize - RecentCount())
      ensures forall i :: 0 <= i < size ==> FreePlaces()[i] == (old(FreePlaces())[i] || (aged && !old(epochFlags)[i]))
      ensures epochFlags == if aged then seq(size, _ => false) else old(epochFlags)
    {
      hide Free, Live;
      aged := false;
      if epochHeuristicCounter != 0 {
        epochHeuristicCounter := epochHeuristicCounter - 1;
        return;
      }
      var unused := CountRecent();
      if unused >= epochSize {
        aged := true;
        Age();
        epochHeuristicCounter := epochSize;
      } else {
        epochHeuristicCounter := Max(1, Max(epochSize / 16, epochSize - unused));
      }
    }

    method CountRecent() returns (count: nat)
      requires Shaped()
      ensures count == RecentCount()
    {
      hide Free;
      count := 0;
      ghost var seen: set<int> := {};
      ghost var free := FreePlaces();
      for i := 0 to size
        invariant count == |seen|
        invariant forall k :: k in seen <==> 0 <= k < i && !free[k] && epochFlags[k]
      {
        if epochFlags[i] && !BitIsSet(collectionFlags, i) {
          count := count + 1;
          seen := seen + {i};
        }
      }
      assert seen == Recent(free, epochFlags);
    }

    method Age()
      requires Shaped() && InOwnPlaces()
      modifies this`collectionFlags, this`epochFlags
      ensures Shaped() && InOwnPlaces() && RecentCount() == 0
      ensures forall i :: 0 <= i < size ==> FreePlaces()[i] == (old(FreePlaces())[i] || !old(epochFlags)[i])
      ensures epochFlags == seq(size, _ => false)
    {
      hide Free;
      ghost var free, epoch := FreePlaces(), epochFlags;
      for i := 0 to size
        invariant Shaped()
        invariant forall k :: 0 <= k < size ==> FreePlaces()[k] == (free[k] || (k < i && !epoch[k]))
        invariant forall k :: 0 <= k < size ==> epochFlags[k] == (k >= i && epoch[k])
      {
        if epochFlags[i] {
          epochFlags := epochFlags[i := false];
        } else {
          AllowErase(i);
        }
      }
      assert Recent(FreePlaces(), epochFlags) == {};
    }

    /** The insertion proper. The live elements are those before and the new one, minus at most
        one, for every hash function and every depth limit. */
    method Place(e0: Element) returns (ghost lost: set<Element>)
      requires Shaped() && InOwnPlaces()
      modifies this
      ensures Shaped() && InOwnPlaces() && epochHeuristicCounter == old(epochHeuristicCounter)
      ensures LiveElements() + lost == old(LiveElements()) + {e0} && |lost| <= 1
      ensures old(HasRoom(e0)) ==> lost == {}
      ensures RecentCount() <= old(RecentCount()) + 1
    {
      hide Free, Live, Recent, FastRange32, InOwnPlaces;
      lost := {};
      var e, lastEpoch := e0, true;
      var lastLoc: int := -1;
      var locs := Places(e);
      var present := KeepIfPresent(e, locs);
      if present {
        return;
      }
      for depth := 0 to depthLimit
        invariant Shaped() && InOwnPlaces() && locs == Places(e) && epochHeuristicCounter == old(epochHeuristicCounter)
        invariant depth > 0 ==> !old(HasRoom(e0))
        invariant depth == 0 ==> e == e0 && FreePlaces() == old(FreePlaces()) && (old(HasRoom(e0)) ==> depthLimit > 0)
        invariant depth == 0 ==>
                    (old(HasRoom(e0)) <==> depthLimit > 0 && exists k :: 0 <= k < 8 && FreePlaces()[locs[k]])
        invariant LiveElements() + {e} == old(LiveElements()) + {e0}
        invariant RecentCount() + (if lastEpoch then 1 else 0) == old(RecentCount()) + 1
      {
        var open := OpenPlace(locs);
        if open < 8 {
          Settle(e, locs[open], lastEpoch);
          return;
        }
        var loc := locs[(1 + Index(locs, lastLoc)) % 8];
        e, lastEpoch := Displace(e, loc, lastEpoch);
        lastLoc := loc;
        locs := Places(e);
      }
      lost := {e};
    }

    /** Exactly the element at `loc` is marked as recent and as not to be collected. */
    twostate predicate KeptAt(loc: nat)
      requires old(Shaped()) && Shaped() && loc < size
      reads this
    {
      epochFlags == old(epochFlags)[loc := true] && FreePlaces() == old(FreePlaces())[loc := false]
    }

    /** An element that is in the table already is kept there. */
    method KeepIfPresent(e: Element, locs: seq<nat>) returns (present: bool)
      requires Shaped() && InOwnPlaces() && locs == Places(e)
      modifies this
      ensures Shaped() && InOwnPlaces() && epochHeuristicCounter == old(epochHeuristicCounter)
      ensures present ==> LiveElements() == old(LiveElements()) + {e} && RecentCount() <= old(RecentCount()) + 1
      ensures !present ==> LiveElements() == old(LiveElements()) && RecentCount() == old(RecentCount())
      ensures present <==> old(exists k :: 0 <= k < 8 && table[Places(e)[k]] == e)
      ensures present ==> table == old(table) && exists k :: FirstPlace(e, k) && KeptAt(Places(e)[k])
      ensures !present ==> FreePlaces() == old(FreePlaces())
    {
      hide Free, Live, Recent, FastRange32;
      for k := 0 to 8
        invariant table == old(table) && epochFlags == old(epochFlags) && collectionFlags == old(collectionFlags)
        invariant forall j :: 0 <= j < k ==> table[locs[j]] != e
        invariant epochHeuristicCounter == old(epochHeuristicCounter)
      {
        if table[locs[k]] == e {
          LivePut(table, FreePlaces(), locs[k], e);
          RecentPut(FreePlaces(), epochFlags, locs[k], true);
          PleaseKeep(locs[k]);
          epochFlags := epochFlags[locs[k] := true];
          assert locs[k] in Places(table[locs[k]]);
          assert FirstPlace(e, k);
          return true;
        }
      }
      return false;
    }

    /** An element takes the place of another, which is to be placed next. */
    method Displace(e: Element, loc: nat, epoch: bool) returns (evicted: Element, evictedEpoch: bool)
      requires Shaped() && InOwnPlaces() && loc < size && !FreePlaces()[loc] && loc in Places(e)
      modifies this
      ensures Shaped() && InOwnPlaces() && epochHeuristicCounter == old(epochHeuristicCounter)
      ensures LiveElements() + {evicted} == old(LiveElements()) + {e}
      ensures RecentCount() + (if evictedEpoch then 1 else 0) == old(RecentCount()) + if epoch then 1 else 0
    {
      hide Free, Live, Recent, FastRange32;
      LivePut(table, FreePlaces(), loc, e);
      RecentPut(FreePlaces(), epochFlags, loc, epoch);
      assert FreePlaces()[loc := false] == FreePlaces();
      evicted, evictedEpoch := table[loc], epochFlags[loc];
      table := table[loc := e];
      epochFlags := epochFlags[loc := epoch];
    }

    /** The last step: an element goes into a place that is free. */
    method Settle(e: Element, loc: nat, epoch: bool)
      requires Shaped() && InOwnPlaces() && loc < size && FreePlaces()[loc] && loc in Places(e)
      modifies this
      ensures Shaped() && InOwnPlaces() && epochHeuristicCounter == old(epochHeuristicCounter)
      ensures LiveElements() == old(LiveElements()) + {e}
      ensures RecentCount() == old(RecentCount()) + if epoch then 1 else 0
    {
      hide Free, Live, Recent, FastRange32;
      LivePut(table, FreePlaces(), loc, e);
      RecentPut(FreePlaces(), epochFlags, loc, epoch);
      table := table[loc := e];
      PleaseKeep(loc);
      epochFlags := epochFlags[loc := epoch];
    }

    method OpenPlace(locs: seq<nat>) returns (k: nat)
      requires Shaped() && |locs| == 8 && forall j :: 0 <= j < 8 ==> locs[j] < size
      ensures k <= 8 && (k < 8 ==> FreePlaces()[locs[k]]) && forall j :: 0 <= j < k ==> !FreePlaces()[locs[j]]
    {
      hide Free;
      k := 0;
      while k < 8 && !BitIsSet(collectionFlags, locs[k])
        invariant k <= 8 && forall j :: 0 <= j < k ==> !FreePlaces()[locs[j]]
      {
        k := k + 1;
      }
    }

    /** The epoch step leaves all live elements, or those of the current epoch if that is full.
        After it, an insertion changes the live elements by the new one and at most
        one other; none is lost if the element is there already or finds room at once. */
    method Insert(e: Element) returns (ghost kept: set<Element>, ghost lost: set<Element>)
      requires Valid()
      modifies this
      ensures Valid() && kept <= old(LiveElements()) && LiveElements() + lost == kept + {e} && |lost| <= 1
      ensures kept == if old(epochHeuristicCounter) > 0 || old(RecentCount()) < epochSize then old(LiveElements())
                      else old(RecentElements(table, FreePlaces(), epochFlags))
      ensures old(HasRoom(e)) ==> lost == {}
    {
      hide Free, Live, Recent, FastRange32, EpochLimit;
      ghost var free, epoch := FreePlaces(), epochFlags;
      ghost var aged := EpochCheck();
      kept := LiveElements();
      FewerFree(table, free, FreePlaces());
      if aged {
        LiveRecent(table, free, epoch, FreePlaces());
      } else {
        assert FreePlaces() == free;
      }
      lost := Place(e);
    }

    /** An element that is found and marked discardable is still found until the next insertion. */
    method FoundAgain(e: Element) returns (again: bool)
      requires Valid()
      modifies this
      ensures Valid() && again
    {
      hide Free, Live, EpochLimit, FastRange32;
      ghost var kept, lost := Insert(e);
      var found := Contains(e, true);
      again := true;
      if found {
        again := Contains(e, false);
      }
    }

    lemma OwnPlace(e: Element)
      requires Shaped() && InOwnPlaces()
      ensures e in LiveElements() ==> exists k :: 0 <= k < 8 && table[Places(e)[k]] == e
    {
      if e in LiveElements() {
        LiveIs(table, FreePlaces(), e);
        var i :| 0 <= i < |table| && !FreePlaces()[i] && table[i] == e;
        assert i in Places(table[i]);
        var k :| 0 <= k < 8 && Places(e)[k] == i;
        assert table[Places(e)[k]] == e;
      }
    }
  }

  lemma FreedRecent(free: seq<bool>, epoch: seq<bool>, i: nat)
    requires |free| == |epoch| && i < |free|
    ensures |Recent(free[i := true], epoch)| <= |Recent(free, epoch)|
  {
    var r, r' := Recent(free, epoch), Recent(free[i := true], epoch);
    assert r' == r - {i};
  }

  lemma FewerFree(table: seq<Element>, free: seq<bool>, free': seq<bool>)
    requires |table| == |free| == |free'| && forall i :: 0 <= i < |free| && free[i] ==> free'[i]
    ensures Live(table, free') <= Live(table, free)
  {
  }

  /** The position of a place in the list, or eight. */
  function Index(locs: seq<nat>, loc: int): (k: nat)
    requires |locs| == 8
    ensures k <= 8
  {
    if locs[0] == loc then 0 else if locs[1] == loc then 1 else if locs[2] == loc then 2 else if locs[3] == loc then 3
    else if locs[4] == loc then 4 else if locs[5] == loc then 5 else if locs[6] == loc then 6
    else if locs[7] == loc then 7 else 8
  }
}
