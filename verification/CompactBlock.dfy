/**
 Compact blocks (BIP 152): a block sent as short transaction ids, and its reconstruction from
 what is known already and what is asked for.
 */
module CompactBlock {
  import opened Common

  const MAX_TRANSACTIONS: nat := 4000000 / 40
  const MAX_UINT16: nat := 65535

  /** A transaction and its witness hash. */
  datatype Tx = Tx(hash: int, isNull: bool)

  datatype Prefilled = Prefilled(index: nat, tx: Tx)

  /** `shortId` is the keyed hash of the message. */
  datatype Message = Message(
    headerNull: bool, header: int, shortIds: seq<int>, prefilled: seq<Prefilled>, shortId: int -> int)
  {
    function TxCount(): nat { |shortIds| + |prefilled| }

    /** What a message that was read from the wire satisfies. */
    predicate Readable() {
      TxCount() <= MAX_UINT16 && forall i :: 0 <= i < |prefilled| ==> prefilled[i].index <= MAX_UINT16
    }
  }

  datatype Status = Ok | Invalid | Failed | CheckBlockFailed

  type Slots = seq<Option<Tx>>

  // ---------------------------------------------------------------- gaps

  /** The empty positions, in order. */
  function Gaps(av: Slots): (g: seq<nat>)
    ensures |g| <= |av|
    ensures forall i :: 0 <= i < |g| ==> g[i] < |av| && av[g[i]].None?
    ensures forall i, j :: 0 <= i < j < |g| ==> g[i] < g[j]
  {
    if av == [] then []
    else
      var (rest, n) := (Gaps(av[..|av| - 1]), |av| - 1);
      if av[n].None? then rest + [n] else rest
  }

  lemma {:induction false} GapsAreAll(av: Slots, p: nat)
    requires p < |av| && av[p].None?
    ensures p in Gaps(av)
  {
    var n := |av| - 1;
    if p < n {
      GapsAreAll(av[..n], p);
    }
  }

  lemma GapsNext(av: Slots, n: nat)
    requires n < |av|
    ensures Gaps(av[..n + 1]) == if av[n].None? then Gaps(av[..n]) + [n] else Gaps(av[..n])
  {
    assert av[..n + 1][..n] == av[..n];
  }

  /** The gaps of a prefix are a prefix of the gaps. */
  lemma {:induction false} GapsPrefix(av: Slots, n: nat)
    requires n <= |av|
    ensures Gaps(av[..n]) <= Gaps(av)
    decreases |av|
  {
    if n < |av| {
      var m := |av| - 1;
      GapsPrefix(av[..m], n);
      assert av[..m][..n] == av[..n];
    } else {
      assert av[..n] == av;
    }
  }

  /** Filling a gap takes it out of the list. */
  lemma {:induction false} GapsFilled(av: Slots, p: nat, tx: Tx)
    requires p < |av| && av[p].None?
    ensures |Gaps(av[p := Some(tx)])| == |Gaps(av)| - 1
  {
    var av', n := av[p := Some(tx)], |av| - 1;
    if p < n {
      GapsFilled(av[..n], p, tx);
      assert av'[..n] == av[..n][p := Some(tx)];
    } else {
      assert av'[..n] == av[..n];
    }
  }

  lemma {:induction false} GapsOfEmpty(n: nat)
    ensures |Gaps(seq(n, _ => None))| == n
  {
    var av: Slots := seq(n, _ => None);
    if n > 0 {
      GapsOfEmpty(n - 1);
      assert av[..n - 1] == seq(n - 1, _ => None);
    }
  }

  // ---------------------------------------------------------------- prefilled transactions

  /** The position of prefilled transaction i: indices are offsets from the one before. */
  function Position(pre: seq<Prefilled>, i: nat): int
    requires i <= |pre|
  {
    if i == 0 then -1 else Position(pre, i - 1) + pre[i - 1].index + 1
  }

  /** The prefilled transactions that the message may hold. */
  ghost predicate Placeable(pre: seq<Prefilled>, ids: nat) {
    GoodUpTo(pre, ids, |pre|)
  }

  ghost predicate GoodUpTo(pre: seq<Prefilled>, ids: nat, n: nat)
    requires n <= |pre|
  {
    forall i :: 0 <= i < n ==> GoodAt(pre, ids, i)
  }

  /** There is a transaction, and it is not beyond the short ids and the prefilled ones so far. */
  ghost predicate GoodAt(pre: seq<Prefilled>, ids: nat, i: nat)
    requires i < |pre|
  {
    !pre[i].tx.isNull && Position(pre, i + 1) <= ids + i && Position(pre, i + 1) <= MAX_UINT16
  }

  ghost predicate FitUpTo(pre: seq<Prefilled>, n: nat, total: nat)
    requires n <= |pre|
  {
    forall i :: 0 < i <= n ==> 0 <= Position(pre, i) < total
  }

  lemma GoodFits(pre: seq<Prefilled>, ids: nat, n: nat)
    requires n <= |pre| && GoodUpTo(pre, ids, n)
    ensures FitUpTo(pre, n, ids + |pre|)
  {
    forall i | 0 < i <= n ensures 0 <= Position(pre, i) < ids + |pre| {
      PositionNotNegative(pre, i);
      assert GoodAt(pre, ids, i - 1);
    }
  }

  /** The slots with the first prefilled transactions in place. */
  ghost function Placed(pre: seq<Prefilled>, n: nat, total: nat): (av: Slots)
    requires n <= |pre| && FitUpTo(pre, n, total)
    ensures |av| == total
  {
    if n == 0 then seq(total, _ => None) else Placed(pre, n - 1, total)[Position(pre, n) := Some(pre[n - 1].tx)]
  }

  lemma {:induction false} PositionsGrow(pre: seq<Prefilled>, i: nat, j: nat)
    requires i < j <= |pre|
    ensures Position(pre, i) < Position(pre, j)
    decreases j
  {
    if i < j - 1 {
      PositionsGrow(pre, i, j - 1);
    }
  }

  /** Only prefilled positions are filled, each with its transaction. */
  lemma {:induction false} PlacedIs(pre: seq<Prefilled>, n: nat, total: nat)
    requires n <= |pre| && FitUpTo(pre, n, total)
    ensures forall i :: 0 <= i < n ==> Placed(pre, n, total)[Position(pre, i + 1)] == Some(pre[i].tx)
    ensures forall p :: Position(pre, n) < p < total ==> Placed(pre, n, total)[p].None?
    ensures |Gaps(Placed(pre, n, total))| == total - n
  {
    if n == 0 {
      GapsOfEmpty(total);
    } else {
      hide Gaps;
      PlacedIs(pre, n - 1, total);
      PositionsGrow(pre, n - 1, n);
      var before := Placed(pre, n - 1, total);
      GapsFilled(before, Position(pre, n), pre[n - 1].tx);
      forall i | 0 <= i < n ensures Placed(pre, n, total)[Position(pre, i + 1)] == Some(pre[i].tx) {
        if i < n - 1 {
          PositionsGrow(pre, i + 1, n);
        }
      }
    }
  }

  // ---------------------------------------------------------------- short ids

  /** What the map of short ids says after some of them. */
  ghost predicate Mapped(ids: seq<int>, gaps: seq<nat>, n: nat, positions: map<int, nat>)
    requires n <= |ids| && n <= |gaps|
  {
    && (forall id :: id in positions <==> id in ids[..n])
    && |positions| <= n && (|positions| == n <==> Distinct(ids[..n]))
    && (Distinct(ids[..n]) ==> forall k :: 0 <= k < n ==> ids[k] in positions && positions[ids[k]] == gaps[k])
  }

  lemma MappedOne(ids: seq<int>, gaps: seq<nat>, n: nat, positions: map<int, nat>)
    requires n < |ids| && n < |gaps| && Mapped(ids, gaps, n, positions)
    ensures Mapped(ids, gaps, n + 1, positions[ids[n] := gaps[n]])
  {
    var front, all, id := ids[..n], ids[..n + 1], ids[n];
    var positions' := positions[id := gaps[n]];
    assert all == front + [id];
    assert |positions| == |positions.Keys| && |positions'| == |positions'.Keys|;
    if id in positions {
      assert positions'.Keys == positions.Keys;
      var k :| 0 <= k < n && front[k] == id;
      assert all[k] == all[n];
    } else {
      assert positions'.Keys == positions.Keys + {id};
      forall k | 0 <= k < n ensures all[k] != id {
        assert front[k] in front;
      }
      assert Distinct(front) ==> Distinct(all);
      assert Distinct(all) ==> Distinct(front) by {
        if Distinct(all) {
          forall i, j | 0 <= i < j < n ensures front[i] != front[j] {
            assert all[i] != all[j];
          }
        }
      }
      if Distinct(all) {
        forall k | 0 <= k < n + 1 ensures ids[k] in positions' && positions'[ids[k]] == gaps[k] {
          assert k < n ==> all[k] == ids[k] && ids[k] in positions;
        }
      }
    }
  }

  /** The scan stays inside: the next gap is not before the current position. */
  lemma NextGap(av: Slots, gaps: seq<nat>, i: nat, p: nat)
    requires gaps == Gaps(av) && i < |gaps| && p <= gaps[i] && av[p].Some?
    ensures p + 1 <= gaps[i]
  {
  }

  lemma GapBetween(av: Slots, gaps: seq<nat>, i: nat, p: nat)
    requires gaps == Gaps(av) && i < |gaps| && (if i == 0 then 0 else gaps[i - 1] + 1) <= p <= gaps[i] && av[p].None?
    ensures p == gaps[i]
  {
    GapsAreAll(av, p);
    var k :| 0 <= k < |gaps| && gaps[k] == p;
  }

  /** The i-th short id belongs to the i-th position that is not prefilled. */
  method MapShortIds(ids: seq<int>, av: Slots, crowded: nat -> bool) returns (r: Option<map<int, nat>>)
    requires |Gaps(av)| == |ids|
    ensures r.Some? <==> Distinct(ids) && forall i :: 0 <= i < |ids| ==> !crowded(i)
    ensures r.Some? ==> Mapped(ids, Gaps(av), |ids|, r.value)
  {
    hide Mapped;
    var positions: map<int, nat> := map[];
    ghost var gaps := Gaps(av);
    var offset := 0;
    MappedNone(ids, gaps);
    for i := 0 to |ids|
      invariant offset >= 0 && i + offset == (if i == 0 then 0 else gaps[i - 1] + 1) && Mapped(ids, gaps, i, positions)
      invariant forall j :: 0 <= j < i ==> !crowded(j)
    {
      while av[i + offset].Some?
        invariant (if i == 0 then 0 else gaps[i - 1] + 1) <= i + offset <= gaps[i] && offset >= 0
        decreases |av| - offset
      {
        NextGap(av, gaps, i, i + offset);
        offset := offset + 1;
      }
      GapBetween(av, gaps, i, i + offset);
      MappedOne(ids, gaps, i, positions);
      positions := positions[ids[i] := i + offset];
      if crowded(i) {
        return None;
      }
    }
    MappedAll(ids, gaps, positions);
    if |positions| != |ids| {
      return None;
    }
    return Some(positions);
  }

  lemma MappedNone(ids: seq<int>, gaps: seq<nat>)
    ensures Mapped(ids, gaps, 0, map[])
  {
  }

  lemma MappedAll(ids: seq<int>, gaps: seq<nat>, positions: map<int, nat>)
    requires |ids| <= |gaps| && Mapped(ids, gaps, |ids|, positions)
    ensures |positions| == |ids| <==> Distinct(ids)
  {
    assert ids[..|ids|] == ids;
  }

  // ---------------------------------------------------------------- transactions on offer

  /** A transaction, the hash it is offered under, and whether it is one of the extra ones. */
  datatype Offer = Offer(hash: int, tx: Tx, extra: bool)

  function FromPool(pool: seq<Tx>): (os: seq<Offer>)
    ensures |os| == |pool| && forall i :: 0 <= i < |pool| ==> os[i] == Offer(pool[i].hash, pool[i], false)
  {
    seq(|pool|, i requires 0 <= i < |pool| => Offer(pool[i].hash, pool[i], false))
  }

  function FromExtra(extra: seq<(int, Tx)>): (os: seq<Offer>)
    ensures |os| == |extra| && forall i :: 0 <= i < |extra| ==> os[i] == Offer(extra[i].0, extra[i].1, true)
  {
    seq(|extra|, i requires 0 <= i < |extra| => Offer(extra[i].0, extra[i].1, true))
  }

  /** What a short id has met among some offers. */
  datatype Match = Nothing | Found(tx: Tx) | Clash

  /** An extra transaction that is there already. */
  predicate Again(o: Offer, tx: Tx) { o.extra && o.tx.hash == tx.hash }

  function Met(before: Match, o: Offer): Match {
    match before
    case Nothing => Found(o.tx)
    case Found(tx) => if Again(o, tx) then before else Clash
    case Clash => Clash
  }

  function Result(m: Message, offers: seq<Offer>, id: int): Match {
    if offers == [] then Nothing
    else
      var (before, o) := (Result(m, offers[..|offers| - 1], id), offers[|offers| - 1]);
      if m.shortId(o.hash) == id then Met(before, o) else before
  }

  lemma ResultNext(m: Message, offers: seq<Offer>, o: Offer, id: int)
    ensures Result(m, offers + [o], id) ==
            if m.shortId(o.hash) == id then Met(Result(m, offers, id), o) else Result(m, offers, id)
  {
    assert (offers + [o])[..|offers|] == offers;
  }

  /** Offer number a has this short id. */
  predicate Fits(m: Message, offers: seq<Offer>, id: int, a: int) {
    0 <= a < |offers| && m.shortId(offers[a].hash) == id
  }

  ghost predicate FirstFor(m: Message, offers: seq<Offer>, id: int, a: int) {
    Fits(m, offers, id, a) && forall b :: Fits(m, offers, id, b) ==> a <= b
  }

  ghost predicate OnlyOffer(m: Message, offers: seq<Offer>, id: int, a: int) {
    Fits(m, offers, id, a) && forall b :: Fits(m, offers, id, b) ==> b == a
  }

  /** Nothing was offered; or the first offer stands, and all others repeat it; or one does not. */
  ghost predicate Means(m: Message, offers: seq<Offer>, id: int, r: Match) {
    match r
    case Nothing => forall a :: !Fits(m, offers, id, a)
    case Found(tx) => exists a :: FirstFor(m, offers, id, a) && offers[a].tx == tx &&
                                  forall b :: Fits(m, offers, id, b) && b > a ==> Again(offers[b], tx)
    case Clash => exists a, b :: FirstFor(m, offers, id, a) && Fits(m, offers, id, b) && a < b &&
                                 !Again(offers[b], offers[a].tx)
  }

  lemma FitsNext(m: Message, offers: seq<Offer>, o: Offer, id: int)
    ensures forall a :: 0 <= a < |offers| ==> (Fits(m, offers + [o], id, a) <==> Fits(m, offers, id, a))
    ensures Fits(m, offers + [o], id, |offers|) <==> m.shortId(o.hash) == id
    ensures forall a :: Fits(m, offers + [o], id, a) ==> 0 <= a <= |offers|
    ensures forall a :: FirstFor(m, offers, id, a) ==> FirstFor(m, offers + [o], id, a)
  {
  }

  lemma {:induction false} ResultMeans(m: Message, offers: seq<Offer>, id: int)
    ensures Means(m, offers, id, Result(m, offers, id))
  {
    if offers != [] {
      var n := |offers| - 1;
      var before, o := offers[..n], offers[n];
      ResultMeans(m, before, id);
      assert offers == before + [o];
      FitsNext(m, before, o, id);
      hide Fits;
      match Result(m, before, id) {
        case Nothing =>
          if m.shortId(o.hash) == id {
            assert FirstFor(m, offers, id, n);
          }
        case Found(tx) =>
          var a :| FirstFor(m, before, id, a) && before[a].tx == tx &&
                   forall b :: Fits(m, before, id, b) && b > a ==> Again(before[b], tx);
          assert Fits(m, before, id, a) && 0 <= a < n by {
            FitsInside(m, before, id, a);
          }
          assert FirstFor(m, offers, id, a) && offers[a].tx == tx;
        case Clash =>
          var a, b :| FirstFor(m, before, id, a) && Fits(m, before, id, b) && a < b && !Again(before[b], before[a].tx);
          FitsInside(m, before, id, a);
          FitsInside(m, before, id, b);
          assert FirstFor(m, offers, id, a) && Fits(m, offers, id, b) && offers[b] == before[b];
          assert offers[a] == before[a];
      }
    }
  }

  lemma FitsInside(m: Message, offers: seq<Offer>, id: int, a: int)
    requires Fits(m, offers, id, a)
    ensures 0 <= a < |offers|
  {
  }

  /** A clash is for good. */
  lemma {:induction false} ClashStays(m: Message, offers: seq<Offer>, more: seq<Offer>, id: int)
    requires Result(m, offers, id).Clash?
    ensures Result(m, offers + more, id).Clash?
    decreases |more|
  {
    if more == [] {
      assert offers + more == offers;
    } else {
      var n := |more| - 1;
      ClashStays(m, offers, more[..n], id);
      assert offers + more == offers + more[..n] + [more[n]];
      ResultNext(m, offers + more[..n], more[n], id);
    }
  }

  lemma FoundIfOnly(m: Message, offers: seq<Offer>, id: int, a: int)
    requires OnlyOffer(m, offers, id, a)
    ensures Result(m, offers, id) == Found(offers[a].tx)
  {
    ResultMeans(m, offers, id);
  }

  // ---------------------------------------------------------------- how far the offers are looked at

  ghost function FilledIds(m: Message, offers: seq<Offer>): set<int> {
    set i | 0 <= i < |m.shortIds| && Result(m, offers, m.shortIds[i]).Found?
  }

  ghost function Filled(m: Message, offers: seq<Offer>): nat {
    |FilledIds(m, offers)|
  }

  /** The offers that are looked at: a scan ends early when the count says that every short id is
      matched. `stale` is what the count was before. */
  ghost function Seen(m: Message, stale: int, before: seq<Offer>, more: seq<Offer>): seq<Offer>
    decreases |more|
  {
    if more == [] then before
    else
      var now := before + [more[0]];
      if stale + Filled(m, now) == |m.shortIds| then now else Seen(m, stale, now, more[1..])
  }

  ghost function SeenAll(m: Message, stale: int, pool: seq<Tx>, extra: seq<(int, Tx)>): seq<Offer> {
    Seen(m, stale, Seen(m, stale, [], FromPool(pool)), FromExtra(extra))
  }

  lemma {:induction false} SeenIs(m: Message, stale: int, before: seq<Offer>, more: seq<Offer>) returns (k: nat)
    ensures k <= |more| && Seen(m, stale, before, more) == before + more[..k]
    ensures k < |more| ==> stale + Filled(m, before + more[..k]) == |m.shortIds|
    decreases |more|
  {
    if more == [] {
      k := 0;
    } else {
      var now := before + [more[0]];
      assert before + more[..1] == now;
      if stale + Filled(m, now) == |m.shortIds| {
        k := 1;
      } else {
        k := SeenIs(m, stale, now, more[1..]);
        assert now + more[1..][..k] == before + more[..k + 1];
        k := k + 1;
      }
    }
  }

  lemma FilledBound(m: Message, offers: seq<Offer>)
    ensures Filled(m, offers) <= |m.shortIds|
    ensures Filled(m, offers) == |m.shortIds| ==>
              forall i :: 0 <= i < |m.shortIds| ==> Result(m, offers, m.shortIds[i]).Found?
  {
    RangeSize(0, |m.shortIds|);
    SubsetSize(FilledIds(m, offers), Range(0, |m.shortIds|));
    if Filled(m, offers) == |m.shortIds| {
      forall i | 0 <= i < |m.shortIds| ensures Result(m, offers, m.shortIds[i]).Found? {
        assert i in FilledIds(m, offers);
      }
    }
  }

  /** A first offer for a short id fills it; a second one empties it again. */
  lemma FilledNext(m: Message, offers: seq<Offer>, o: Offer, i: int)
    requires Distinct(m.shortIds) && 0 <= i < |m.shortIds| && m.shortIds[i] == m.shortId(o.hash)
    ensures var r := Result(m, offers, m.shortIds[i]);
            Filled(m, offers + [o]) == Filled(m, offers) + (
              if r.Nothing? then 1 else if r.Found? && !Again(o, r.tx) then -1 else 0)
  {
    var r, f := Result(m, offers, m.shortIds[i]), FilledIds(m, offers);
    forall j | 0 <= j < |m.shortIds|
      ensures j in FilledIds(m, offers + [o]) <==> if j == i then Met(r, o).Found? else j in f
    {
      ResultNext(m, offers, o, m.shortIds[j]);
      assert j < i ==> m.shortIds[j] != m.shortIds[i];
      assert i < j ==> m.shortIds[j] != m.shortIds[i];
    }
    if Met(r, o).Found? {
      assert FilledIds(m, offers + [o]) == f + {i};
    } else {
      assert FilledIds(m, offers + [o]) == f - {i};
    }
  }

  lemma FilledSame(m: Message, offers: seq<Offer>, o: Offer)
    requires forall i :: 0 <= i < |m.shortIds| ==> m.shortIds[i] != m.shortId(o.hash)
    ensures Filled(m, offers + [o]) == Filled(m, offers)
  {
    forall j | 0 <= j < |m.shortIds|
      ensures Result(m, offers + [o], m.shortIds[j]) == Result(m, offers, m.shortIds[j])
    {
      ResultNext(m, offers, o, m.shortIds[j]);
    }
    assert FilledIds(m, offers + [o]) == FilledIds(m, offers);
  }

  /** Whatever the whole lists match is matched. */
  ghost predicate NothingMissed(m: Message, stale: int) {
    forall pool, extra, i, tx ::
      0 <= i < |m.shortIds| && Result(m, FromPool(pool) + FromExtra(extra), m.shortIds[i]) == Found(tx) ==>
      Result(m, SeenAll(m, stale, pool, extra), m.shortIds[i]) == Found(tx)
  }

  /** The scans look at the beginning of each list, and at all of it unless every id is matched. */
  lemma SeenParts(m: Message, stale: int, pool: seq<Tx>, extra: seq<(int, Tx)>) returns (j: nat, k: nat)
    ensures j <= |pool| && k <= |extra|
    ensures SeenAll(m, stale, pool, extra) == FromPool(pool)[..j] + FromExtra(extra)[..k]
    ensures j < |pool| ==> stale + Filled(m, FromPool(pool)[..j]) == |m.shortIds|
    ensures k < |extra| ==> stale + Filled(m, SeenAll(m, stale, pool, extra)) == |m.shortIds|
  {
    hide Filled;
    j := SeenIs(m, stale, [], FromPool(pool));
    var first := FromPool(pool)[..j];
    assert [] + first == first;
    k := SeenIs(m, stale, first, FromExtra(extra));
  }

  /** More offers change nothing for a matched id exactly if all of them repeat the match. */
  lemma {:induction false} MatchStands(m: Message, offers: seq<Offer>, more: seq<Offer>, id: int, tx: Tx)
    requires Result(m, offers, id) == Found(tx)
    ensures Result(m, offers + more, id) == Found(tx) <==> Repeats(m, more, id, tx)
    ensures Result(m, offers + more, id) == Found(tx) || Result(m, offers + more, id).Clash?
    decreases |more|
  {
    if more == [] {
      assert offers + more == offers;
    } else {
      var n := |more| - 1;
      var low, o := more[..n], more[n];
      MatchStands(m, offers, low, id, tx);
      assert offers + more == offers + low + [o] && more == low + [o];
      ResultNext(m, offers + low, o, id);
      RepeatsNext(m, low, o, id, tx);
    }
  }

  ghost predicate Repeats(m: Message, offers: seq<Offer>, id: int, tx: Tx) {
    forall b :: Fits(m, offers, id, b) ==> Again(offers[b], tx)
  }

  lemma RepeatsNext(m: Message, offers: seq<Offer>, o: Offer, id: int, tx: Tx)
    ensures Repeats(m, offers + [o], id, tx) <==>
            Repeats(m, offers, id, tx) && (m.shortId(o.hash) == id ==> Again(o, tx))
  {
    var all := offers + [o];
    FitsNext(m, offers, o, id);
    assert all[|offers|] == o && forall b :: 0 <= b < |offers| ==> all[b] == offers[b];
  }

  /** What the whole of two lists matches is unmatched in the beginning of them, or matched alike. */
  lemma FoundBefore(m: Message, offers: seq<Offer>, more: seq<Offer>, id: int, tx: Tx)
    requires Result(m, offers + more, id) == Found(tx)
    ensures Result(m, offers, id) == Nothing || Result(m, offers, id) == Found(tx)
  {
    var r := Result(m, offers, id);
    if r.Found? {
      MatchStands(m, offers, more, id, r.tx);
    } else if r.Clash? {
      ClashStays(m, offers, more, id);
    }
  }

  lemma RepeatsPart(m: Message, offers: seq<Offer>, more: seq<Offer>, k: nat, id: int, tx: Tx)
    requires Repeats(m, offers + more, id, tx) && k <= |more|
    ensures Repeats(m, more[..k], id, tx)
  {
    var all, part := offers + more, more[..k];
    forall b | Fits(m, part, id, b) ensures Again(part[b], tx) {
      assert all[|offers| + b] == part[b] && Fits(m, all, id, |offers| + b);
    }
  }

  /** The early end of a scan loses no match, unless the count was stale. */
  lemma FoundUnlessStale(m: Message, stale: int, pool: seq<Tx>, extra: seq<(int, Tx)>, i: int, tx: Tx)
    requires stale == 0 || stale > |m.shortIds|
    requires 0 <= i < |m.shortIds| && Result(m, FromPool(pool) + FromExtra(extra), m.shortIds[i]) == Found(tx)
    ensures Result(m, SeenAll(m, stale, pool, extra), m.shortIds[i]) == Found(tx)
  {
    var p, e, id := FromPool(pool), FromExtra(extra), m.shortIds[i];
    var j, k := SeenParts(m, stale, pool, extra);
    var first, seen := p[..j], p[..j] + e[..k];
    FilledBound(m, first);
    FilledBound(m, seen);
    hide Filled, SeenAll, Result, Repeats;
    if j < |pool| {
      assert p + e == first + (p[j..] + e);
      FoundBefore(m, first, p[j..] + e, id, tx);
      MatchStands(m, first, p[j..] + e, id, tx);
      RepeatsPart(m, p[j..], e, k, id, tx);
      MatchStands(m, first, e[..k], id, tx);
    } else {
      assert p + e == seen + e[k..];
      FoundBefore(m, seen, e[k..], id, tx);
      assert k == |extra| ==> seen == p + e;
    }
  }

  /** Every short id is that of some hash, and there is a hash that has none of them. */
  ghost predicate Hashed(m: Message, hashes: seq<int>, other: int) {
    && Distinct(m.shortIds) && m.shortId(other) !in m.shortIds && |hashes| == |m.shortIds|
    && forall i :: 0 <= i < |hashes| ==> m.shortId(hashes[i]) == m.shortIds[i]
  }

  /** One transaction that nobody wants, then some in the order of their short ids. */
  function InOrder(hashes: seq<int>, other: int, n: nat): (pool: seq<Tx>)
    requires n <= |hashes|
    ensures |pool| == n + 1
  {
    [Tx(other, false)] + seq(n, i requires 0 <= i < n => Tx(hashes[i], false))
  }

  lemma InOrderAt(m: Message, hashes: seq<int>, other: int, n: nat, b: int, j: nat)
    requires Hashed(m, hashes, other) && n <= |hashes| && 0 <= b <= n && j < |m.shortIds|
    ensures m.shortId(FromPool(InOrder(hashes, other, n))[b].hash) == m.shortIds[j] <==> b == j + 1
  {
    var pool := InOrder(hashes, other, n);
    assert FromPool(pool)[b].hash == pool[b].hash;
    if b > 0 {
      assert pool[b].hash == hashes[b - 1];
      assert m.shortId(hashes[b - 1]) == m.shortIds[b - 1];
    } else {
      assert pool[0].hash == other;
    }
  }

  lemma InOrderOnly(m: Message, hashes: seq<int>, other: int, n: nat, j: nat)
    requires Hashed(m, hashes, other) && j < n <= |hashes| == |m.shortIds|
    ensures OnlyOffer(m, FromPool(InOrder(hashes, other, n)), m.shortIds[j], j + 1)
  {
    hide Hashed, InOrder;
    InOrderAt(m, hashes, other, n, j + 1, j);
    forall b | Fits(m, FromPool(InOrder(hashes, other, n)), m.shortIds[j], b) ensures b == j + 1 {
      InOrderAt(m, hashes, other, n, b, j);
    }
  }

  lemma NotYetOffered(m: Message, offers: seq<Offer>, id: int, n: int)
    requires OnlyOffer(m, offers, id, n)
    ensures 0 <= n < |offers| && Result(m, offers[..n], id).Nothing?
  {
    var some := offers[..n];
    ResultMeans(m, some, id);
    assert forall b :: Fits(m, some, id, b) ==> Fits(m, offers, id, b);
  }

  lemma {:induction false} InOrderFilled(m: Message, hashes: seq<int>, other: int, n: nat, j: nat)
    requires Hashed(m, hashes, other) && j <= n <= |hashes|
    ensures Filled(m, FromPool(InOrder(hashes, other, n))[..j + 1]) == j
  {
    var offers := FromPool(InOrder(hashes, other, n));
    assert offers[..j + 1] == offers[..j] + [offers[j]];
    if j == 0 {
      assert offers[..0] == [] && FilledIds(m, []) == {};
      forall i | 0 <= i < |m.shortIds| ensures m.shortIds[i] != m.shortId(offers[0].hash) {
        InOrderAt(m, hashes, other, n, 0, i);
      }
      FilledSame(m, [], offers[0]);
    } else {
      InOrderFilled(m, hashes, other, n, j - 1);
      InOrderOnly(m, hashes, other, n, j - 1);
      NotYetOffered(m, offers, m.shortIds[j - 1], j);
      InOrderAt(m, hashes, other, n, j, j - 1);
      FilledNext(m, offers[..j], offers[j], j - 1);
    }
  }

  /** With a stale count that the matches can still reach, the scan of that list ends too early. */
  lemma InOrderSeen(m: Message, stale: int, hashes: seq<int>, other: int, n: nat)
    requires Hashed(m, hashes, other) && 1 <= stale <= |m.shortIds| == |hashes| && n == |m.shortIds| - stale
    ensures var offers := FromPool(InOrder(hashes, other, n + 1));
            |offers| == n + 2 && Seen(m, stale, [], offers) == offers[..n + 1]
  {
    var offers := FromPool(InOrder(hashes, other, n + 1));
    hide Filled, Hashed, InOrder, Seen, FromPool;
    forall k: nat | 0 < k <= n + 1 ensures Filled(m, offers[..k]) == k - 1 {
      InOrderFilled(m, hashes, other, n + 1, k - 1);
    }
    SeenStops(m, stale, offers, 0, n + 1);
    assert offers[..0] == [] && offers[0..] == offers;
  }

  lemma StaleCountMisses(m: Message, stale: int, hashes: seq<int>, other: int)
    requires Hashed(m, hashes, other) && 1 <= stale <= |m.shortIds|
    ensures !NothingMissed(m, stale)
  {
    var n := |m.shortIds| - stale;
    var pool, none: seq<(int, Tx)> := InOrder(hashes, other, n + 1), [];
    var offers, id := FromPool(pool), m.shortIds[n];
    InOrderSeen(m, stale, hashes, other, n);
    InOrderOnly(m, hashes, other, n + 1, n);
    NotYetOffered(m, offers, id, n + 1);
    assert FromExtra(none) == [] && offers + FromExtra(none) == offers;
    assert SeenAll(m, stale, pool, none) == offers[..n + 1];
    FoundIfOnly(m, offers, id, n + 1);
    hide Result, Seen, SeenAll, InOrder, FromPool, Hashed;
    assert Result(m, FromPool(pool) + FromExtra(none), m.shortIds[n]) == Found(offers[n + 1].tx);
  }

  lemma {:induction false} SeenStops(m: Message, stale: int, offers: seq<Offer>, j: nat, n: nat)
    requires j < n <= |offers| && stale + Filled(m, offers[..n]) == |m.shortIds|
    requires forall k: nat :: j < k < n ==> stale + Filled(m, offers[..k]) != |m.shortIds|
    ensures Seen(m, stale, offers[..j], offers[j..]) == offers[..n]
    decreases n - j
  {
    assert offers[..j] + [offers[j..][0]] == offers[..j + 1];
    assert offers[j..][1..] == offers[j + 1..];
    if j + 1 < n {
      SeenStops(m, stale, offers, j + 1, n);
    }
  }

  /** The exact condition: the count was zero, or larger than the matches could make it. */
  lemma NothingMissedIff(m: Message, stale: nat, hashes: seq<int>, other: int)
    requires Hashed(m, hashes, other)
    ensures NothingMissed(m, stale) <==> stale == 0 || stale > |m.shortIds|
  {
    if stale == 0 || stale > |m.shortIds| {
      forall pool, extra, i, tx |
        0 <= i < |m.shortIds| && Result(m, FromPool(pool) + FromExtra(extra), m.shortIds[i]) == Found(tx)
        ensures Result(m, SeenAll(m, stale, pool, extra), m.shortIds[i]) == Found(tx)
      {
        FoundUnlessStale(m, stale, pool, extra, i, tx);
      }
    } else {
      StaleCountMisses(m, stale, hashes, other);
    }
  }

  // ---------------------------------------------------------------- what is available

  function ToSlot(r: Match): Option<Tx> {
    if r.Found? then Some(r.tx) else None
  }

  /** What holds once some offers have been looked at: prefilled positions stay, and the others
      hold what their short id has met. */
  ghost predicate Taking(m: Message, base: Slots, av: Slots, have: seq<bool>, offers: seq<Offer>) {
    && |av| == |base| == |have| && |Gaps(base)| == |m.shortIds|
    && (forall p :: 0 <= p < |base| && base[p].Some? ==> av[p] == base[p])
    && (forall i :: 0 <= i < |m.shortIds| ==> MatchedAs(av, have, Gaps(base)[i], Result(m, offers, m.shortIds[i])))
  }

  predicate MatchedAs(av: Slots, have: seq<bool>, p: nat, r: Match)
    requires p < |av| == |have|
  {
    av[p] == ToSlot(r) && (have[p] <==> !r.Nothing?)
  }

  lemma TakingStart(m: Message, base: Slots)
    requires |Gaps(base)| == |m.shortIds|
    ensures Taking(m, base, base, seq(|base|, _ => false), []) && Filled(m, []) == 0
  {
    assert FilledIds(m, []) == {};
  }

  lemma TakingShape(m: Message, base: Slots, av: Slots, have: seq<bool>, offers: seq<Offer>, i: nat)
    requires Taking(m, base, av, have, offers) && i < |m.shortIds|
    ensures |av| == |base| == |have| && Gaps(base)[i] < |base|
    ensures MatchedAs(av, have, Gaps(base)[i], Result(m, offers, m.shortIds[i]))
  {
  }

  /** The position of a short id is one of the gaps. */
  lemma PositionIsGap(m: Message, base: Slots, positions: map<int, nat>, id: int) returns (i: nat)
    requires |Gaps(base)| == |m.shortIds| && Distinct(m.shortIds)
    requires Mapped(m.shortIds, Gaps(base), |m.shortIds|, positions)
    requires id in positions
    ensures i < |m.shortIds| && m.shortIds[i] == id && positions[id] == Gaps(base)[i]
  {
    assert m.shortIds[..|m.shortIds|] == m.shortIds;
    i :| 0 <= i < |m.shortIds| && m.shortIds[i] == id;
  }

  lemma NoPosition(m: Message, base: Slots, positions: map<int, nat>, id: int)
    requires |Gaps(base)| == |m.shortIds| && Mapped(m.shortIds, Gaps(base), |m.shortIds|, positions) && id !in positions
    ensures forall i :: 0 <= i < |m.shortIds| ==> m.shortIds[i] != id
  {
    assert m.shortIds[..|m.shortIds|] == m.shortIds;
  }

  /** An offer whose short id is nowhere. */
  lemma Passed(m: Message, base: Slots, av: Slots, have: seq<bool>, offers: seq<Offer>, o: Offer)
    requires Taking(m, base, av, have, offers)
    requires forall i :: 0 <= i < |m.shortIds| ==> m.shortIds[i] != m.shortId(o.hash)
    ensures Taking(m, base, av, have, offers + [o])
  {
    hide Gaps, Result;
    forall i | 0 <= i < |m.shortIds|
      ensures MatchedAs(av, have, Gaps(base)[i], Result(m, offers + [o], m.shortIds[i]))
    {
      ResultNext(m, offers, o, m.shortIds[i]);
    }
  }

  /** An offer affects the position of its short id, and no other. */
  lemma Taken(m: Message, base: Slots, av: Slots, have: seq<bool>, offers: seq<Offer>, i: nat, o: Offer,
              av': Slots, have': seq<bool>)
    requires Taking(m, base, av, have, offers) && Distinct(m.shortIds)
    requires i < |m.shortIds| && m.shortId(o.hash) == m.shortIds[i]
    requires var p := Gaps(base)[i];
             && av' == av[p := ToSlot(Met(Result(m, offers, m.shortIds[i]), o))] && have' == have[p := true]
    ensures Taking(m, base, av', have', offers + [o])
  {
    var g := Gaps(base);
    hide Gaps, Result;
    forall j | 0 <= j < |m.shortIds|
      ensures MatchedAs(av', have', g[j], Result(m, offers + [o], m.shortIds[j]))
    {
      ResultNext(m, offers, o, m.shortIds[j]);
      assert MatchedAs(av, have, g[j], Result(m, offers, m.shortIds[j]));
      assert j < i ==> g[j] != g[i] && m.shortIds[j] != m.shortIds[i];
      assert i < j ==> g[j] != g[i] && m.shortIds[j] != m.shortIds[i];
    }
  }

  class PartiallyDownloadedBlock {
    var txnAvailable: Slots
    var prefilledCount: nat
    var mempoolCount: int
    var headerNull: bool
    var header: int

    constructor ()
      ensures headerNull && txnAvailable == [] && mempoolCount == 0
    {
      txnAvailable, prefilledCount, mempoolCount, headerNull, header := [], 0, 0, true, 0;
    }

    method PlacePrefilled(m: Message) returns (ok: bool)
      requires m.Readable() && |txnAvailable| == m.TxCount() && txnAvailable == seq(m.TxCount(), _ => None)
      modifies this`txnAvailable
      ensures ok <==> Placeable(m.prefilled, |m.shortIds|)
      ensures ok ==> FitUpTo(m.prefilled, |m.prefilled|, m.TxCount())
      ensures ok ==> txnAvailable == Placed(m.prefilled, |m.prefilled|, m.TxCount())
    {
      hide Placed, Position, GoodUpTo, FitUpTo;
      var last := -1;
      ghost var pre, ids := m.prefilled, |m.shortIds|;
      PlacedNone(pre, ids, m.TxCount());
      for i := 0 to |m.prefilled|
        invariant last == Position(pre, i) && GoodUpTo(pre, ids, i) && FitUpTo(pre, i, m.TxCount())
        invariant txnAvailable == Placed(pre, i, m.TxCount())
      {
        GoodOneMore(pre, ids, i);
        PositionNext(pre, i);
        if m.prefilled[i].tx.isNull {
          return false;
        }
        last := last + m.prefilled[i].index + 1;
        if last > MAX_UINT16 {
          return false;
        }
        if last > |m.shortIds| + i {
          return false;
        }
        PlacedNext(pre, i, ids);
        txnAvailable := txnAvailable[last := Some(m.prefilled[i].tx)];
      }
      return true;
    }

    /** One offer: a first match is taken, a second one empties the position for good; an extra
        transaction that is the same again changes nothing. */
    method Take(m: Message, o: Offer, positions: map<int, nat>, have: seq<bool>,
                ghost base: Slots, ghost offers: seq<Offer>, ghost stale: int) returns (have': seq<bool>)
      requires Distinct(m.shortIds) && |Gaps(base)| == |m.shortIds|
      requires Mapped(m.shortIds, Gaps(base), |m.shortIds|, positions)
      requires Taking(m, base, txnAvailable, have, offers) && mempoolCount == stale + Filled(m, offers)
      modifies this`txnAvailable, this`mempoolCount
      ensures Taking(m, base, txnAvailable, have', offers + [o]) && mempoolCount == stale + Filled(m, offers + [o])
    {
      hide Taking, Mapped, Gaps, Result, Filled;
      have' := have;
      var id := m.shortId(o.hash);
      if id in positions {
        var p := positions[id];
        ghost var i := PositionIsGap(m, base, positions, id);
        TakingShape(m, base, txnAvailable, have, offers, i);
        FilledNext(m, offers, o, i);
        ghost var av, r := txnAvailable, Result(m, offers, id);
        if !have[p] {
          txnAvailable := txnAvailable[p := Some(o.tx)];
          have' := have[p := true];
          mempoolCount := mempoolCount + 1;
        } else if txnAvailable[p].Some? && (o.extra ==> txnAvailable[p].value.hash != o.tx.hash) {
          txnAvailable := txnAvailable[p := None];
          mempoolCount := mempoolCount - 1;
        }
        assert txnAvailable == av[p := ToSlot(Met(r, o))] && have' == have[p := true];
        Taken(m, base, av, have, offers, i, o, txnAvailable, have');
      } else {
        NoPosition(m, base, positions, id);
        Passed(m, base, txnAvailable, have, offers, o);
        FilledSame(m, offers, o);
      }
    }

    /** The mempool or the extra transactions, until the count says that every short id is matched. */
    method TakeAll(m: Message, some: seq<Offer>, positions: map<int, nat>, have: seq<bool>,
                   ghost base: Slots, ghost offers: seq<Offer>, ghost stale: int) returns (have': seq<bool>)
      requires Distinct(m.shortIds) && |Gaps(base)| == |m.shortIds|
      requires Mapped(m.shortIds, Gaps(base), |m.shortIds|, positions)
      requires Taking(m, base, txnAvailable, have, offers) && mempoolCount == stale + Filled(m, offers)
      modifies this`txnAvailable, this`mempoolCount
      ensures Taking(m, base, txnAvailable, have', Seen(m, stale, offers, some))
      ensures mempoolCount == stale + Filled(m, Seen(m, stale, offers, some))
    {
      hide Taking, Mapped, Gaps, Filled;
      have' := have;
      MappedAll(m.shortIds, Gaps(base), positions);
      ghost var seen := offers;
      assert some[0..] == some;
      for i := 0 to |some|
        invariant Taking(m, base, txnAvailable, have', seen) && mempoolCount == stale + Filled(m, seen)
        invariant Seen(m, stale, offers, some) == Seen(m, stale, seen, some[i..])
      {
        assert some[i..][0] == some[i] && some[i..][1..] == some[i + 1..];
        have' := Take(m, some[i], positions, have', base, seen, stale);
        seen := seen + [some[i]];
        if mempoolCount == |positions| {
          return;
        }
      }
    }

    /** The message is taken exactly when it is well-formed and its short ids are distinct, a
        crowded bucket of the id map aside. Then every position is prefilled, matched or asked
        for, as the offers that were looked at decide. (The bound of MAX_TRANSACTIONS cannot be
        exceeded by a message that was read from the wire.) The count of matches goes on from what
        it was, although the block may be the second one of this object. */
    method InitData(m: Message, pool: seq<Tx>, extra: seq<(int, Tx)>, crowded: nat -> bool) returns (status: Status)
      requires m.Readable()
      modifies this
      ensures status == Invalid <==>
                m.headerNull || m.TxCount() == 0 || !old(headerNull) || old(txnAvailable) != [] ||
                !Placeable(m.prefilled, |m.shortIds|)
      ensures status == Failed <==>
                status != Invalid && (!Distinct(m.shortIds) || exists i :: 0 <= i < |m.shortIds| && crowded(i))
      ensures status == Ok ==> Started(m, SeenAll(m, old(mempoolCount), pool, extra))
      ensures status == Ok ==>
                mempoolCount == old(mempoolCount) + Filled(m, SeenAll(m, old(mempoolCount), pool, extra))
      ensures status == Failed ==> !headerNull && header == m.header && mempoolCount == old(mempoolCount)
      ensures status != CheckBlockFailed
    {
      hide Taking, Mapped, Gaps, Placed, GoodUpTo, FitUpTo, Filled, Seen;
      if m.headerNull || (m.shortIds == [] && m.prefilled == []) {
        return Invalid;
      }
      if m.TxCount() > MAX_TRANSACTIONS {
        return Invalid;
      }
      if !headerNull || txnAvailable != [] {
        return Invalid;
      }
      headerNull, header := false, m.header;
      txnAvailable := seq(m.TxCount(), _ => None);
      var ok := PlacePrefilled(m);
      if !ok {
        return Invalid;
      }
      prefilledCount := |m.prefilled|;
      ghost var base, stale := txnAvailable, mempoolCount;
      PlacedIs(m.prefilled, |m.prefilled|, m.TxCount());
      var positions := MapShortIds(m.shortIds, txnAvailable, crowded);
      if positions.None? {
        return Failed;
      }
      var have: seq<bool> := seq(|txnAvailable|, _ => false);
      TakingStart(m, base);
      have := TakeAll(m, FromPool(pool), positions.value, have, base, [], stale);
      have := TakeAll(m, FromExtra(extra), positions.value, have, base, Seen(m, stale, [], FromPool(pool)), stale);
      return Ok;
    }

    /** A block in reconstruction. */
    ghost predicate Started(m: Message, offers: seq<Offer>)
      reads this
    {
      && !headerNull && header == m.header && Distinct(m.shortIds) && FitUpTo(m.prefilled, |m.prefilled|, m.TxCount())
      && exists have :: Taking(m, Placed(m.prefilled, |m.prefilled|, m.TxCount()), txnAvailable, have, offers)
    }

    /** The block of the available transactions, with the missing ones in index order between
        them. It can be made once; too few missing transactions leave the slots empty that come
        before the first gap that could not be filled. The count of matches is not reset.
        `checked` and `mutated` are the outcome of the block check. */
    method FillBlock(missing: seq<Tx>, checked: bool, mutated: bool) returns (status: Status, vtx: seq<Tx>)
      modifies this`headerNull, this`txnAvailable
      ensures mempoolCount == old(mempoolCount)
      ensures status == Invalid <==> old(headerNull) || |missing| != |Gaps(old(txnAvailable))|
      ensures status != Invalid ==> Merges(old(txnAvailable), missing, vtx) && headerNull && txnAvailable == []
      ensures status != Invalid ==> status == if checked then Ok else if mutated then Failed else CheckBlockFailed
      ensures old(headerNull) ==> headerNull && txnAvailable == old(txnAvailable)
      ensures !old(headerNull) && |missing| >= |Gaps(old(txnAvailable))| ==> headerNull && txnAvailable == []
      ensures !old(headerNull) && |missing| < |Gaps(old(txnAvailable))| ==>
                && !headerNull && header == old(header)
                && var g := Gaps(old(txnAvailable))[|missing|];
                   txnAvailable == seq(g, _ => None) + old(txnAvailable)[g..]
    {
      hide Gaps, Merges;
      vtx := [];
      if headerNull {
        return Invalid, [];
      }
      ghost var av := txnAvailable;
      var offset := 0;
      MergesNothing(av, missing);
      for i := 0 to |txnAvailable|
        invariant txnAvailable == seq(i, _ => None) + av[i..] && !headerNull && header == old(header)
        invariant |vtx| == i && offset == |Gaps(av[..i])| <= |missing| && Merges(av[..i], missing[..offset], vtx)
      {
        MergesOn(av, missing, i, offset, vtx);
        assert txnAvailable[i] == av[i];
        if txnAvailable[i].None? {
          if |missing| <= offset {
            GapsNext(av, i);
            GapsPrefix(av, i + 1);
            return Invalid, vtx;
          }
          vtx := vtx + [missing[offset]];
          offset := offset + 1;
        } else {
          vtx := vtx + [txnAvailable[i].value];
          txnAvailable := txnAvailable[i := None];
        }
      }
      assert av[..|av|] == av;
      headerNull := true;
      txnAvailable := [];
      if |missing| != offset {
        return Invalid, vtx;
      }
      assert missing[..offset] == missing;
      if !checked {
        return if mutated then Failed else CheckBlockFailed, vtx;
      }
      return Ok, vtx;
    }
  }

  /** Every position holds its transaction, and the gaps the missing ones in order. */
  ghost predicate Merges(av: Slots, missing: seq<Tx>, vtx: seq<Tx>) {
    && |vtx| == |av| && |missing| == |Gaps(av)|
    && (forall p :: 0 <= p < |av| && av[p].Some? ==> vtx[p] == av[p].value)
    && (forall i :: 0 <= i < |missing| ==> vtx[Gaps(av)[i]] == missing[i])
  }

  lemma MergesNothing(av: Slots, missing: seq<Tx>)
    ensures av[..0] == [] && |Gaps(av[..0])| == 0 && Merges(av[..0], missing[..0], [])
  {
  }

  lemma MergesOn(av: Slots, missing: seq<Tx>, i: nat, offset: nat, vtx: seq<Tx>)
    requires i < |av| && offset <= |missing| && offset == |Gaps(av[..i])| && Merges(av[..i], missing[..offset], vtx)
    ensures |Gaps(av[..i + 1])| == offset + if av[i].None? then 1 else 0
    ensures av[i].Some? ==> Merges(av[..i + 1], missing[..offset], vtx + [av[i].value])
    ensures av[i].None? && offset < |missing| ==> Merges(av[..i + 1], missing[..offset + 1], vtx + [missing[offset]])
  {
    GapsNext(av, i);
    var g, g' := Gaps(av[..i]), Gaps(av[..i + 1]);
    hide Gaps;
    if av[i].None? && offset < |missing| {
      var v' := vtx + [missing[offset]];
      forall k | 0 <= k < offset + 1 ensures v'[g'[k]] == missing[..offset + 1][k] {
        assert k < offset ==> g'[k] == g[k] && vtx[g[k]] == missing[..offset][k];
      }
    }
  }

  /** There is one way to fill the gaps. */
  lemma MergesOnce(av: Slots, missing: seq<Tx>, u: seq<Tx>, v: seq<Tx>)
    requires Merges(av, missing, u) && Merges(av, missing, v)
    ensures u == v
  {
    forall p | 0 <= p < |av| ensures u[p] == v[p] {
      if av[p].None? {
        GapsAreAll(av, p);
        var i :| 0 <= i < |Gaps(av)| && Gaps(av)[i] == p;
      }
    }
  }

  // ---------------------------------------------------------------- a block and its message

  /** The message for a block: the coinbase is sent, the others are named. */
  function MessageOf(header: int, vtx: seq<Tx>, shortId: int -> int): (m: Message)
    requires vtx != []
    ensures |m.shortIds| == |vtx| - 1 && forall i :: 0 < i < |vtx| ==> m.shortIds[i - 1] == shortId(vtx[i].hash)
  {
    Message(false, header, seq(|vtx| - 1, i requires 0 <= i < |vtx| - 1 => shortId(vtx[i + 1].hash)),
            [Prefilled(0, vtx[0])], shortId)
  }

  /** No two of the transactions share a short id. */
  ghost predicate NoCollision(vtx: seq<Tx>, offers: seq<Offer>, shortId: int -> int) {
    && (forall i, j :: 0 < i < j < |vtx| ==> shortId(vtx[i].hash) != shortId(vtx[j].hash))
    && (forall o, i :: o in offers && 0 < i < |vtx| && shortId(o.hash) == shortId(vtx[i].hash) ==> o.tx == vtx[i])
  }

  lemma {:induction false} MessageIsTaken(header: int, vtx: seq<Tx>, shortId: int -> int)
    requires vtx != [] && |vtx| <= MAX_UINT16 && !vtx[0].isNull
    ensures var m := MessageOf(header, vtx, shortId);
            m.Readable() && m.TxCount() == |vtx| && Placeable(m.prefilled, |m.shortIds|)
            && FitUpTo(m.prefilled, 1, |vtx|)
            && Placed(m.prefilled, 1, |vtx|) == seq(|vtx|, _ => None)[0 := Some(vtx[0])]
  {
    var m := MessageOf(header, vtx, shortId);
    assert Position(m.prefilled, 1) == 0;
    PlacedNone(m.prefilled, |m.shortIds|, |vtx|);
  }

  lemma {:induction false} GapsAfterFirst(n: nat, tx: Tx)
    requires n > 0
    ensures var av: Slots := seq(n, _ => None)[0 := Some(tx)];
            |Gaps(av)| == n - 1 && forall i :: 0 <= i < n - 1 ==> Gaps(av)[i] == i + 1
  {
    var av: Slots := seq(n, _ => None)[0 := Some(tx)];
    if n > 1 {
      GapsAfterFirst(n - 1, tx);
      assert av[..n - 1] == seq(n - 1, _ => None)[0 := Some(tx)];
    } else {
      assert av[..0] == [];
    }
  }

  /** Without collisions, whatever is available is what the block has there. */
  lemma AvailableIsRight(header: int, vtx: seq<Tx>, shortId: int -> int, av: Slots, have: seq<bool>, offers: seq<Offer>)
    requires vtx != [] && |vtx| <= MAX_UINT16 && !vtx[0].isNull && NoCollision(vtx, offers, shortId)
    requires Taking(MessageOf(header, vtx, shortId), seq(|vtx|, _ => None)[0 := Some(vtx[0])], av, have, offers)
    ensures |av| == |vtx| && forall p :: 0 <= p < |av| && av[p].Some? ==> av[p].value == vtx[p]
  {
    var m := MessageOf(header, vtx, shortId);
    GapsAfterFirst(|vtx|, vtx[0]);
    var base: Slots := seq(|vtx|, _ => None)[0 := Some(vtx[0])];
    hide Gaps, NoCollision, Result;
    forall p | 0 <= p < |av| && av[p].Some? ensures av[p].value == vtx[p] {
      if p == 0 {
        assert base[0].Some?;
      } else {
        TakingShape(m, base, av, have, offers, p - 1);
        FoundIsRight(m, vtx, offers, shortId, p, av[p].value);
      }
    }
  }

  lemma FoundIsRight(m: Message, vtx: seq<Tx>, offers: seq<Offer>, shortId: int -> int, p: nat, tx: Tx)
    requires NoCollision(vtx, offers, shortId) && m.shortId == shortId && 0 < p < |vtx|
    requires Result(m, offers, shortId(vtx[p].hash)) == Found(tx)
    ensures tx == vtx[p]
  {
    ResultMeans(m, offers, shortId(vtx[p].hash));
    var a :| FirstFor(m, offers, shortId(vtx[p].hash), a) && offers[a].tx == tx;
    assert offers[a] in offers;
  }

  lemma SeenWithoutCollision(vtx: seq<Tx>, m: Message, stale: int, pool: seq<Tx>, extra: seq<(int, Tx)>)
    requires NoCollision(vtx, FromPool(pool) + FromExtra(extra), m.shortId)
    ensures NoCollision(vtx, SeenAll(m, stale, pool, extra), m.shortId)
  {
    var j, k := SeenParts(m, stale, pool, extra);
    hide SeenAll;
    forall o | o in SeenAll(m, stale, pool, extra) ensures o in FromPool(pool) + FromExtra(extra) {
    }
  }

  /** What has to be asked for: the block's transactions at the gaps. */
  function Missing(av: Slots, vtx: seq<Tx>): (r: seq<Tx>)
    requires |av| == |vtx|
    ensures |r| == |Gaps(av)| && forall i :: 0 <= i < |r| ==> r[i] == vtx[Gaps(av)[i]]
  {
    seq(|Gaps(av)|, i requires 0 <= i < |Gaps(av)| => vtx[Gaps(av)[i]])
  }

  lemma MissingMerges(av: Slots, vtx: seq<Tx>)
    requires |av| == |vtx| && forall p :: 0 <= p < |av| && av[p].Some? ==> av[p].value == vtx[p]
    ensures Merges(av, Missing(av, vtx), vtx)
  {
  }

  lemma DistinctShortIds(header: int, vtx: seq<Tx>, offers: seq<Offer>, shortId: int -> int)
    requires vtx != [] && NoCollision(vtx, offers, shortId)
    ensures Distinct(MessageOf(header, vtx, shortId).shortIds)
  {
    var ids := MessageOf(header, vtx, shortId).shortIds;
    forall i, j | 0 <= i < j < |ids| ensures ids[i] != ids[j] {
      assert ids[i] == shortId(vtx[i + 1].hash) && ids[j] == shortId(vtx[j + 1].hash);
    }
  }

  /** Exactly what was not matched is asked for. */
  lemma AskedFor(header: int, vtx: seq<Tx>, shortId: int -> int, av: Slots, have: seq<bool>, offers: seq<Offer>, p: int)
    requires vtx != []
    requires Taking(MessageOf(header, vtx, shortId), seq(|vtx|, _ => None)[0 := Some(vtx[0])], av, have, offers)
    ensures p in Gaps(av) <==>
            0 < p < |vtx| && !Result(MessageOf(header, vtx, shortId), offers, shortId(vtx[p].hash)).Found?
  {
    var m := MessageOf(header, vtx, shortId);
    var base: Slots := seq(|vtx|, _ => None)[0 := Some(vtx[0])];
    GapsAfterFirst(|vtx|, vtx[0]);
    assert base[0].Some?;
    hide Result;
    if 0 < p < |vtx| {
      TakingShape(m, base, av, have, offers, p - 1);
      if av[p].None? {
        GapsAreAll(av, p);
      }
    }
  }

  /** A block is sent as a message, started from any mempool and extra transactions, and filled
      with what is missing. Without short id collisions exactly what was not matched is asked for,
      and the block comes back exactly, whatever the block check says of it; only a crowded bucket
      keeps it from being started. The object can then be used for another block, but its count of
      matches goes on. */
  method Relay(partial: PartiallyDownloadedBlock, header: int, vtx: seq<Tx>, shortId: int -> int,
               pool: seq<Tx>, extra: seq<(int, Tx)>, crowded: nat -> bool, checked: bool, mutated: bool)
    returns (started: bool, status: Status, block: seq<Tx>, requested: seq<nat>)
    requires partial.headerNull && partial.txnAvailable == []
    requires vtx != [] && |vtx| <= MAX_UINT16 && !vtx[0].isNull
    requires NoCollision(vtx, FromPool(pool) + FromExtra(extra), shortId)
    modifies partial
    ensures started <==> forall i :: 0 <= i < |vtx| - 1 ==> !crowded(i)
    ensures started ==> block == vtx && status == if checked then Ok else if mutated then Failed else CheckBlockFailed
    ensures !started ==> status == Failed && partial.mempoolCount == old(partial.mempoolCount)
    ensures started ==> partial.headerNull && partial.txnAvailable == []
    ensures forall i, j :: 0 <= i < j < |requested| ==> requested[i] < requested[j]
    ensures var m := MessageOf(header, vtx, shortId);
            var seen := SeenAll(m, old(partial.mempoolCount), pool, extra);
            started ==>
              && partial.mempoolCount == old(partial.mempoolCount) + Filled(m, seen)
              && forall p :: p in requested <==> 0 < p < |vtx| && !Result(m, seen, shortId(vtx[p].hash)).Found?
    ensures var m, all := MessageOf(header, vtx, shortId), FromPool(pool) + FromExtra(extra);
            started && (old(partial.mempoolCount) == 0 || old(partial.mempoolCount) >= |vtx|) ==>
              forall p :: p in requested ==> 0 < p < |vtx| && !Result(m, all, shortId(vtx[p].hash)).Found?
  {
    hide Gaps, Taking, Merges, NoCollision, Placed, Placeable, SeenAll, Filled, Result;
    var m := MessageOf(header, vtx, shortId);
    MessageIsTaken(header, vtx, shortId);
    DistinctShortIds(header, vtx, FromPool(pool) + FromExtra(extra), shortId);
    ghost var seen := SeenAll(m, partial.mempoolCount, pool, extra);
    SeenWithoutCollision(vtx, m, partial.mempoolCount, pool, extra);
    status := partial.InitData(m, pool, extra, crowded);
    started, block, requested := status == Ok, [], [];
    if !started {
      return;
    }
    ghost var have :| Taking(m, Placed(m.prefilled, 1, |vtx|), partial.txnAvailable, have, seen);
    ghost var av := partial.txnAvailable;
    AvailableIsRight(header, vtx, shortId, av, have, seen);
    MissingMerges(av, vtx);
    requested := Gaps(partial.txnAvailable);
    forall p ensures p in requested <==> 0 < p < |vtx| && !Result(m, seen, shortId(vtx[p].hash)).Found? {
      AskedFor(header, vtx, shortId, av, have, seen, p);
    }
    NotMatchedAtAll(m, vtx, old(partial.mempoolCount), pool, extra, requested);
    var missing := Missing(partial.txnAvailable, vtx);
    status, block := partial.FillBlock(missing, checked, mutated);
    MergesOnce(av, missing, block, vtx);
  }

  lemma NotMatchedAtAll(m: Message, vtx: seq<Tx>, stale: int, pool: seq<Tx>, extra: seq<(int, Tx)>, requested: seq<nat>)
    requires |m.shortIds| == |vtx| - 1 && forall i :: 0 < i < |vtx| ==> m.shortIds[i - 1] == m.shortId(vtx[i].hash)
    requires forall p :: p in requested ==>
               0 < p < |vtx| && !Result(m, SeenAll(m, stale, pool, extra), m.shortId(vtx[p].hash)).Found?
    ensures var all := FromPool(pool) + FromExtra(extra);
            stale == 0 || stale >= |vtx| ==>
              forall p :: p in requested ==> !Result(m, all, m.shortId(vtx[p].hash)).Found?
  {
    hide Result, SeenAll;
    if stale == 0 || stale >= |vtx| {
      forall p | p in requested
        ensures !Result(m, FromPool(pool) + FromExtra(extra), m.shortId(vtx[p].hash)).Found?
      {
        var r := Result(m, FromPool(pool) + FromExtra(extra), m.shortId(vtx[p].hash));
        if r.Found? {
          FoundUnlessStale(m, stale, pool, extra, p - 1, r.tx);
        }
      }
    }
  }

  /** The stale count at work: an object that has been used for one block asks for a transaction
      of the next one although the mempool holds it. The block comes back all the same. */
  method AskedForAgain(header: int, coinbase: Tx, first: Tx, second: Tx, other: Tx, shortId: int -> int)
    returns (count: int, requested: seq<nat>, block: seq<Tx>)
    requires !coinbase.isNull && shortId(other.hash) != shortId(second.hash)
    ensures count == 1 && 1 in requested && block == [coinbase, second]
  {
    hide Result, SeenAll, Filled, NoCollision;
    var partial := new PartiallyDownloadedBlock();
    var started, status;
    assert NoCollision([coinbase, first], FromPool([first]) + FromExtra([]), shortId) by {
      NoneCollide(coinbase, first, [first], shortId);
    }
    started, status, block, requested :=
      Relay(partial, header, [coinbase, first], shortId, [first], [], _ => false, true, false);
    MatchedOnce(MessageOf(header, [coinbase, first], shortId), first);
    count := partial.mempoolCount;
    assert NoCollision([coinbase, second], FromPool([other, second]) + FromExtra([]), shortId) by {
      NoneCollide(coinbase, second, [other, second], shortId);
    }
    started, status, block, requested :=
      Relay(partial, header, [coinbase, second], shortId, [other, second], [], _ => false, true, false);
    NotLookedAt(MessageOf(header, [coinbase, second], shortId), other, second);
  }

  lemma NoneCollide(coinbase: Tx, tx: Tx, pool: seq<Tx>, shortId: int -> int)
    requires forall i :: 0 <= i < |pool| && shortId(pool[i].hash) == shortId(tx.hash) ==> pool[i] == tx
    ensures NoCollision([coinbase, tx], FromPool(pool) + FromExtra([]), shortId)
  {
    var offers := FromPool(pool) + FromExtra([]);
    forall o | o in offers ensures shortId(o.hash) == shortId(tx.hash) ==> o.tx == tx {
      var i :| 0 <= i < |offers| && offers[i] == o;
      assert o == FromPool(pool)[i];
    }
  }

  lemma MatchedOnce(m: Message, tx: Tx)
    requires m.shortIds == [m.shortId(tx.hash)]
    ensures Filled(m, SeenAll(m, 0, [tx], [])) == 1
  {
    var o := Offer(tx.hash, tx, false);
    assert FromPool([tx]) == [o] && FromExtra([]) == [] && [] + [o] == [o];
    assert Result(m, [], m.shortIds[0]) == Nothing && FilledIds(m, []) == {};
    FilledNext(m, [], o, 0);
    assert [o][1..] == [] && Seen(m, 0, [], [o]) == [o];
  }

  lemma NotLookedAt(m: Message, other: Tx, tx: Tx)
    requires m.shortIds == [m.shortId(tx.hash)] && m.shortId(other.hash) != m.shortId(tx.hash)
    ensures Result(m, SeenAll(m, 1, [other, tx], []), m.shortId(tx.hash)) == Nothing
  {
    var o, offers := Offer(other.hash, other, false), FromPool([other, tx]);
    assert FromExtra([]) == [] && offers[0] == o && [] + [o] == [o];
    assert Result(m, [], m.shortIds[0]) == Nothing && FilledIds(m, []) == {};
    FilledSame(m, [], o);
    assert Seen(m, 1, [], offers) == [o];
    ResultNext(m, [], o, m.shortIds[0]);
  }

  // ---------------------------------------------------------------- differences

  const MAX_UINT64: nat := 0xffff_ffff_ffff_ffff

  /** The differences that are written for a list of indices, if it can be written. */
  method WriteDifferences(vs: seq<nat>) returns (r: Option<seq<nat>>)
    requires forall i :: 0 <= i < |vs| ==> vs[i] <= MAX_UINT64
    ensures r.Some? <==> Ascending(vs)
    ensures r.Some? ==> |r.value| == |vs| && forall i :: 0 <= i < |vs| ==> vs[i] == IndexAt(r.value, i)
  {
    var out := [];
    var shift := 0;
    for k := 0 to |vs|
      invariant |out| == k && shift == Sum(out, k) && Ascending(vs[..k])
      invariant shift == if k == 0 then 0 else vs[k - 1] + 1
      invariant forall i :: 0 <= i < k ==> vs[i] == IndexAt(out, i)
    {
      AscendingMore(vs, k);
      if vs[k] < shift || vs[k] >= MAX_UINT64 {
        return None;
      }
      SumOfPrefix(out, vs[k] - shift);
      out := out + [vs[k] - shift];
      shift := vs[k] + 1;
    }
    assert vs[..|vs|] == vs;
    return Some(out);
  }

  /** Strictly ascending, and below the largest 64-bit number. */
  ghost predicate Ascending(vs: seq<nat>) {
    && (forall i :: 0 <= i < |vs| ==> vs[i] < MAX_UINT64)
    && (forall i :: 0 < i < |vs| ==> vs[i - 1] < vs[i])
  }

  lemma AscendingMore(vs: seq<nat>, k: nat)
    requires k < |vs| && Ascending(vs[..k])
    ensures Ascending(vs[..k + 1]) <==> vs[k] < MAX_UINT64 && (k > 0 ==> vs[k - 1] < vs[k])
    ensures Ascending(vs) ==> Ascending(vs[..k + 1])
  {
    var a, b := vs[..k], vs[..k + 1];
    forall i | 0 < i < k ensures b[i - 1] < b[i] {
      assert a[i - 1] < a[i];
    }
    forall i | 0 <= i < k ensures b[i] < MAX_UINT64 {
      assert a[i] < MAX_UINT64;
    }
    assert k > 0 ==> b[k - 1] == vs[k - 1] && b[k] == vs[k];
  }

  /** Where the first n differences lead: each is one more than the way to the next index. */
  function Sum(ds: seq<nat>, n: nat): nat
    requires n <= |ds|
  {
    if n == 0 then 0 else Sum(ds, n - 1) + ds[n - 1] + 1
  }

  /** The index that difference i leads to. */
  function IndexAt(ds: seq<nat>, i: nat): nat
    requires i < |ds|
  {
    Sum(ds, i) + ds[i]
  }

  lemma SumOfPrefix(ds: seq<nat>, d: nat)
    ensures forall n :: 0 <= n <= |ds| ==> Sum(ds + [d], n) == Sum(ds, n)
    ensures Sum(ds + [d], |ds| + 1) == Sum(ds, |ds|) + d + 1
  {
    forall n | 0 <= n <= |ds| ensures Sum(ds + [d], n) == Sum(ds, n) {
      SumSame(ds, d, n);
    }
  }

  lemma {:induction false} SumSame(ds: seq<nat>, d: nat, n: nat)
    requires n <= |ds|
    ensures Sum(ds + [d], n) == Sum(ds, n)
  {
    if n > 0 {
      SumSame(ds, d, n - 1);
    }
  }

  /** The indices read back; 64-bit addition wraps around, and indices have 16 bits. */
  method ReadDifferences(ds: seq<nat>) returns (r: Option<seq<nat>>)
    requires forall i :: 0 <= i < |ds| ==> ds[i] <= MAX_UINT64
    ensures r.Some? <==> forall i :: 0 <= i < |ds| ==> IndexAt(ds, i) <= MAX_UINT16
    ensures r.Some? ==> |r.value| == |ds| && forall i :: 0 <= i < |ds| ==> r.value[i] == IndexAt(ds, i)
  {
    var out := [];
    var shift := 0;
    for k := 0 to |ds|
      invariant |out| == k && shift == Sum(ds, k) && shift <= MAX_UINT16 + 1
      invariant forall i :: 0 <= i < k ==> out[i] == IndexAt(ds, i) <= MAX_UINT16
    {
      var n := ds[k];
      var sum := (shift + n) % (MAX_UINT64 + 1);
      assert Sum(ds, k + 1) == shift + n + 1;
      if sum < n || sum >= MAX_UINT64 || sum > MAX_UINT16 {
        assert IndexAt(ds, k) > MAX_UINT16;
        return None;
      }
      out := out + [sum];
      shift := sum + 1;
    }
    return Some(out);
  }

  /** Indices that are strictly ascending and fit 16 bits come back as they were; others are
      refused by the writer or by the reader. */
  method WriteThenRead(vs: seq<nat>) returns (r: Option<seq<nat>>)
    requires forall i :: 0 <= i < |vs| ==> vs[i] <= MAX_UINT64
    ensures r.Some? <==> Ascending(vs) && forall i :: 0 <= i < |vs| ==> vs[i] <= MAX_UINT16
    ensures r.Some? ==> r.value == vs
  {
    r := WriteDifferences(vs);
    if r.None? {
      return;
    }
    ghost var ds := r.value;
    DifferencesSmall(ds, vs);
    r := ReadDifferences(r.value);
  }

  lemma DifferencesSmall(ds: seq<nat>, vs: seq<nat>)
    requires |ds| == |vs| && (forall i :: 0 <= i < |vs| ==> vs[i] == IndexAt(ds, i) <= MAX_UINT64)
    ensures forall i :: 0 <= i < |ds| ==> ds[i] <= MAX_UINT64
  {
    forall i | 0 <= i < |ds| ensures ds[i] <= MAX_UINT64 {
      assert vs[i] == Sum(ds, i) + ds[i];
    }
  }

  lemma PositionNext(pre: seq<Prefilled>, i: nat)
    requires i < |pre|
    ensures Position(pre, i + 1) == Position(pre, i) + pre[i].index + 1 >= 0
  {
    PositionNotNegative(pre, i + 1);
  }

  lemma GoodOneMore(pre: seq<Prefilled>, ids: nat, i: nat)
    requires i < |pre| && GoodUpTo(pre, ids, i)
    ensures GoodUpTo(pre, ids, i + 1) <==> GoodAt(pre, ids, i)
    ensures Placeable(pre, ids) ==> GoodAt(pre, ids, i)
  {
  }

  lemma PlacedNone(pre: seq<Prefilled>, ids: nat, total: nat)
    ensures FitUpTo(pre, 0, total) && GoodUpTo(pre, ids, 0) && Position(pre, 0) == -1
    ensures Placed(pre, 0, total) == seq(total, _ => None)
  {
  }

  lemma PlacedNext(pre: seq<Prefilled>, i: nat, ids: nat)
    requires i < |pre| && GoodUpTo(pre, ids, i + 1)
    ensures FitUpTo(pre, i, ids + |pre|) && FitUpTo(pre, i + 1, ids + |pre|)
    ensures Placed(pre, i + 1, ids + |pre|) == Placed(pre, i, ids + |pre|)[Position(pre, i + 1) := Some(pre[i].tx)]
  {
    GoodFits(pre, ids, i + 1);
  }

  lemma {:induction false} PositionNotNegative(pre: seq<Prefilled>, i: nat)
    requires 0 < i <= |pre|
    ensures Position(pre, i) >= 0
  {
    if i > 1 {
      PositionNotNegative(pre, i - 1);
    }
  }
}
