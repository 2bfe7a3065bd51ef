/**
 CheckAddrman: the source's own consistency check, proved to accept exactly the consistent
 states. It is the invariant of the address manager but for four things it does not look at.
 */
module AddrCheck {
  import opened Common
  import opened AddrModel
  import opened AddrBook

  // ---------------------------------------------------------------- what the check looks at

  ghost predicate EntryConsistent(s: Book, id: int)
    requires id in s.infos
  {
    var info := s.infos[id];
    && info.addr in s.addrs && s.addrs[info.addr] == id
    && 0 <= info.randomPos < |s.random| && s.random[info.randomPos] == id
    && info.lastTry >= 0 && info.lastSuccess >= 0
    && (info.inTried ==> info.lastSuccess != 0 && info.refCount == 0)
    && (!info.inTried ==> 1 <= info.refCount <= NEW_BUCKETS_PER_ADDRESS)
  }

  /** The networks of some entries. */
  function Networks(h: Hasher, infos: Infos, ids: set<int>): set<int> {
    set id | id in ids && id in infos :: h.Network(infos[id].addr)
  }

  function Tally(h: Hasher, infos: Infos, ids: set<int>, net: int): NewTriedCount {
    NewTriedCount(|On(h, infos, ids * NewIds(infos, {}), net)|, |On(h, infos, ids * TriedIds(infos), net)|)
  }

  ghost predicate CountsConsistent(h: Hasher, s: Book) {
    && |s.counts| >= |Networks(h, s.infos, s.infos.Keys)|
    && forall net :: net in s.counts ==> s.counts[net] == Tally(h, s.infos, s.infos.Keys, net)
  }

  ghost predicate Consistent(h: Hasher, s: Book) {
    && |s.random| == s.nTried + s.nNew
    && (forall id :: id in s.infos ==> EntryConsistent(s, id))
    && s.nTried == |TriedIds(s.infos)| && s.nNew == |NewIds(s.infos, {})|
    && TriedOk(h, s.infos, s.tried) && NewOk(h, s.infos, s.news, {})
    && CountsConsistent(h, s)
  }

  // ---------------------------------------------------------------- the entries

  /** What the first loop has gathered from the entries it has seen. */
  ghost predicate Gathered(h: Hasher, infos: Infos, done: set<int>,
                           tried: set<int>, news: map<int, int>, local: map<int, NewTriedCount>) {
    && tried == done * TriedIds(infos)
    && news == (map id | id in done * NewIds(infos, {}) :: infos[id].refCount)
    && local.Keys == Networks(h, infos, done)
    && forall net :: CountOn(local, net) == Tally(h, infos, done, net)
  }

  lemma GatheredOne(h: Hasher, infos: Infos, done: set<int>, id: int,
                    tried: set<int>, news: map<int, int>, local: map<int, NewTriedCount>)
    requires Gathered(h, infos, done, tried, news, local) && done <= infos.Keys && id in infos && id !in done
    ensures var info := infos[id];
            Gathered(h, infos, done + {id},
                     if info.inTried then tried + {id} else tried,
                     if info.inTried then news else news[id := info.refCount],
                     if info.inTried then Bump(local, h.Network(info.addr), 0, 1)
                     else Bump(local, h.Network(info.addr), 1, 0))
  {
    NetworksOne(h, infos, done, id);
    LocalOne(h, infos, done, id, local);
    hide Tally, Networks, CountOn;
    var info, done' := infos[id], done + {id};
    var tried' := if info.inTried then tried + {id} else tried;
    var news' := if info.inTried then news else news[id := info.refCount];
    assert tried' == done' * TriedIds(infos);
    assert news' == map j | j in done' * NewIds(infos, {}) :: infos[j].refCount;
  }

  lemma LocalOne(h: Hasher, infos: Infos, done: set<int>, id: int, local: map<int, NewTriedCount>)
    requires done <= infos.Keys && id in infos && id !in done
    requires forall net :: CountOn(local, net) == Tally(h, infos, done, net)
    ensures forall net :: Tally(h, infos, done + {id}, net) ==
              CountOn(if infos[id].inTried then Bump(local, h.Network(infos[id].addr), 0, 1)
                      else Bump(local, h.Network(infos[id].addr), 1, 0), net)
  {
    hide Tally;
    forall net ensures Tally(h, infos, done + {id}, net) ==
      CountOn(if infos[id].inTried then Bump(local, h.Network(infos[id].addr), 0, 1)
              else Bump(local, h.Network(infos[id].addr), 1, 0), net)
    {
      TallyOne(h, infos, done, id, net);
    }
  }

  lemma NetworksOne(h: Hasher, infos: Infos, done: set<int>, id: int)
    requires id in infos
    ensures Networks(h, infos, done + {id}) == Networks(h, infos, done) + {h.Network(infos[id].addr)}
  {
  }

  lemma TallyOne(h: Hasher, infos: Infos, done: set<int>, id: int, net: int)
    requires done <= infos.Keys && id in infos && id !in done
    ensures Tally(h, infos, done + {id}, net) ==
            var (t, one) := (Tally(h, infos, done, net), if h.Network(infos[id].addr) == net then 1 else 0);
            if infos[id].inTried then t.(nTried := t.nTried + one) else t.(nNew := t.nNew + one)
  {
    var new0, tried0, done' := done * NewIds(infos, {}), done * TriedIds(infos), done + {id};
    if infos[id].inTried {
      assert done' * NewIds(infos, {}) == new0 && done' * TriedIds(infos) == tried0 + {id};
      OnPlus(h, infos, infos, tried0, id, net);
    } else {
      assert done' * NewIds(infos, {}) == new0 + {id} && done' * TriedIds(infos) == tried0;
      OnPlus(h, infos, infos, new0, id, net);
    }
  }

  // ---------------------------------------------------------------- the tables

  /** Cells are visited bucket by bucket. */
  predicate Before(b: nat, p: nat, n: nat, i: nat) {
    b < n || (b == n && p < i)
  }

  function SeenTried(h: Hasher, infos: Infos, tried: Table, n: nat, i: nat): set<int>
    requires Shaped(tried, TRIED_BUCKETS)
  {
    set id |
      && id in TriedIds(infos) && id != EMPTY
      && Before(h.TriedBucket(infos[id].addr), h.TriedPos(infos[id].addr), n, i)
             && TriedCell(h, tried, infos[id].addr) == id
  }

  ghost predicate TriedCellsOk(h: Hasher, infos: Infos, tried: Table, n: nat, i: nat)
    requires Shaped(tried, TRIED_BUCKETS)
  {
    forall b: nat, p: nat :: b < TRIED_BUCKETS && p < BUCKET_SIZE && Before(b, p, n, i) && tried[b][p] != EMPTY ==>
      TriedCellOk(h, infos, b, p, tried[b][p])
  }

  lemma SeenTriedNext(h: Hasher, infos: Infos, tried: Table, n: nat, i: nat)
    requires Shaped(tried, TRIED_BUCKETS) && n < TRIED_BUCKETS && i < BUCKET_SIZE
    ensures tried[n][i] == EMPTY ==> SeenTried(h, infos, tried, n, i + 1) == SeenTried(h, infos, tried, n, i)
    ensures tried[n][i] != EMPTY && TriedCellOk(h, infos, n, i, tried[n][i]) ==>
              tried[n][i] !in SeenTried(h, infos, tried, n, i) &&
              SeenTried(h, infos, tried, n, i + 1) == SeenTried(h, infos, tried, n, i) + {tried[n][i]}
  {
  }

  lemma SeenTriedRow(h: Hasher, infos: Infos, tried: Table, n: nat)
    requires Shaped(tried, TRIED_BUCKETS)
    ensures SeenTried(h, infos, tried, n, BUCKET_SIZE) == SeenTried(h, infos, tried, n + 1, 0)
    ensures TriedCellsOk(h, infos, tried, n, BUCKET_SIZE) <==> TriedCellsOk(h, infos, tried, n + 1, 0)
  {
    forall b: nat, p: nat | p < BUCKET_SIZE ensures Before(b, p, n, BUCKET_SIZE) <==> Before(b, p, n + 1, 0) {}
  }

  /** The buckets seen so far in which an entry holds its cell. */
  function SeenNew(h: Hasher, news: Table, id: int, a: Service, n: nat, i: nat): set<nat>
    requires Shaped(news, NEW_BUCKETS)
  {
    set b: nat | b < NEW_BUCKETS && Before(b, h.NewPos(a, b), n, i) && news[b][h.NewPos(a, b)] == id
  }

  ghost predicate NewCellsOk(h: Hasher, infos: Infos, news: Table, n: nat, i: nat)
    requires Shaped(news, NEW_BUCKETS)
  {
    forall b: nat, p: nat :: b < NEW_BUCKETS && p < BUCKET_SIZE && Before(b, p, n, i) && news[b][p] != EMPTY ==>
      NewCellOk(h, infos, b, p, news[b][p])
  }

  lemma SeenNewNext(h: Hasher, news: Table, id: int, a: Service, n: nat, i: nat)
    requires Shaped(news, NEW_BUCKETS) && n < NEW_BUCKETS && i < BUCKET_SIZE
    ensures SeenNew(h, news, id, a, n, i) <= Buckets(h, news, id, a)
    ensures if news[n][i] == id && h.NewPos(a, n) == i
            then n in Buckets(h, news, id, a) && n !in SeenNew(h, news, id, a, n, i)
                 && SeenNew(h, news, id, a, n, i + 1) == SeenNew(h, news, id, a, n, i) + {n}
            else SeenNew(h, news, id, a, n, i + 1) == SeenNew(h, news, id, a, n, i)
  {
  }

  lemma SeenNewRow(h: Hasher, infos: Infos, news: Table, n: nat)
    requires Shaped(news, NEW_BUCKETS)
    ensures forall id, a :: SeenNew(h, news, id, a, n, BUCKET_SIZE) == SeenNew(h, news, id, a, n + 1, 0)
    ensures NewCellsOk(h, infos, news, n, BUCKET_SIZE) <==> NewCellsOk(h, infos, news, n + 1, 0)
  {
    forall b: nat, p: nat | p < BUCKET_SIZE ensures Before(b, p, n, BUCKET_SIZE) <==> Before(b, p, n + 1, 0) {}
  }

  /** The references that the cells still to come must account for. */
  ghost predicate Remaining(h: Hasher, infos: Infos, news: Table, n: nat, i: nat, left: map<int, int>)
    requires Shaped(news, NEW_BUCKETS)
  {
    && left.Keys <= NewIds(infos, {})
    && forall id :: id in NewIds(infos, {}) ==>
         if id == EMPTY then id in left
         else
           var seen := |SeenNew(h, news, id, infos[id].addr, n, i)|;
           if id in left then left[id] == infos[id].refCount - seen && left[id] > 0 else infos[id].refCount == seen
  }

  lemma RemainingStart(h: Hasher, infos: Infos, news: Table, left: map<int, int>)
    requires Shaped(news, NEW_BUCKETS)
    requires left.Keys == NewIds(infos, {})
    requires forall id :: id in left ==> left[id] == infos[id].refCount && left[id] > 0
    ensures Remaining(h, infos, news, 0, 0, left) && NewCellsOk(h, infos, news, 0, 0)
  {
    forall id | id in infos ensures SeenNew(h, news, id, infos[id].addr, 0, 0) == {} {}
  }

  lemma RemainingNext(h: Hasher, infos: Infos, news: Table, n: nat, i: nat, left: map<int, int>)
    requires Shaped(news, NEW_BUCKETS) && n < NEW_BUCKETS && i < BUCKET_SIZE
    requires Remaining(h, infos, news, n, i, left)
    ensures news[n][i] == EMPTY ==> Remaining(h, infos, news, n, i + 1, left)
    ensures var id := news[n][i];
            id != EMPTY && id in left && NewCellOk(h, infos, n, i, id) ==>
              Remaining(h, infos, news, n, i + 1, if left[id] == 1 then left - {id} else left[id := left[id] - 1])
  {
    forall id | id in NewIds(infos, {}) && id != EMPTY ensures
      |SeenNew(h, news, id, infos[id].addr, n, i + 1)| == |SeenNew(h, news, id, infos[id].addr, n, i)| +
        if news[n][i] == id && h.NewPos(infos[id].addr, n) == i then 1 else 0
    {
      SeenNewNext(h, news, id, infos[id].addr, n, i);
    }
  }

  /** A cell whose id has no references left, or that is not at its position, is an inconsistency. */
  lemma NothingRemains(h: Hasher, infos: Infos, news: Table, n: nat, i: nat, left: map<int, int>)
    requires Shaped(news, NEW_BUCKETS) && n < NEW_BUCKETS && i < BUCKET_SIZE
    requires Remaining(h, infos, news, n, i, left) && news[n][i] != EMPTY && news[n][i] !in left
    ensures !NewOk(h, infos, news, {})
  {
    var id := news[n][i];
    if id in NewIds(infos, {}) {
      SeenNewNext(h, news, id, infos[id].addr, n, i);
      var seen, all := SeenNew(h, news, id, infos[id].addr, n, i), Buckets(h, news, id, infos[id].addr);
      if NewCellOk(h, infos, n, i, id) {
        SubsetSize(seen + {n}, all);
      }
    }
  }

  lemma NothingLeft(h: Hasher, infos: Infos, news: Table, left: map<int, int>)
    requires Shaped(news, NEW_BUCKETS) && Remaining(h, infos, news, NEW_BUCKETS, 0, left)
    requires NewCellsOk(h, infos, news, NEW_BUCKETS, 0)
    requires forall id :: id in infos && infos[id].inTried ==> infos[id].refCount == 0
    requires forall id :: id in infos && !infos[id].inTried ==> 1 <= infos[id].refCount <= NEW_BUCKETS_PER_ADDRESS
    requires EMPTY !in TriedIds(infos)
    ensures left == map[] <==> NewOk(h, infos, news, {})
  {
    forall id | id in infos ensures
      SeenNew(h, news, id, infos[id].addr, NEW_BUCKETS, 0) == Buckets(h, news, id, infos[id].addr) {}
    forall id | id in infos && infos[id].inTried ensures Buckets(h, news, id, infos[id].addr) == {} {
      forall b: nat | b < NEW_BUCKETS ensures news[b][h.NewPos(infos[id].addr, b)] != id {
        assert Before(b, h.NewPos(infos[id].addr, b), NEW_BUCKETS, 0);
      }
    }
    forall b: nat, p: nat | b < NEW_BUCKETS && p < BUCKET_SIZE && news[b][p] != EMPTY
      ensures NewCellOk(h, infos, b, p, news[b][p])
    {
      assert Before(b, p, NEW_BUCKETS, 0);
    }
    if left != map[] {
      var id :| id in left;
      assert id in NewIds(infos, {});
    }
  }

  // ---------------------------------------------------------------- the check

  method CheckEntries(h: Hasher, s: Book)
    returns (err: int, tried: set<int>, news: map<int, int>, local: map<int, NewTriedCount>)
    ensures err == 0 <==> forall id :: id in s.infos ==> EntryConsistent(s, id)
    ensures err == 0 ==> Gathered(h, s.infos, s.infos.Keys, tried, news, local)
  {
    hide Gathered;
    tried, news, local := {}, map[], map[];
    GatheredNone(h, s.infos);
    var todo := s.infos.Keys;
    while todo != {}
      invariant todo <= s.infos.Keys
      invariant forall id :: id in s.infos && id !in todo ==> EntryConsistent(s, id)
      invariant Gathered(h, s.infos, s.infos.Keys - todo, tried, news, local)
      decreases todo
    {
      ghost var some := SomeElement(todo);
      var n :| n in todo;
      var info := s.infos[n];
      GatheredOne(h, s.infos, s.infos.Keys - todo, n, tried, news, local);
      if info.inTried {
        if info.lastSuccess == 0 {
          return -1, tried, news, local;
        }
        if info.refCount != 0 {
          return -2, tried, news, local;
        }
        tried := tried + {n};
        local := Bump(local, h.Network(info.addr), 0, 1);
      } else {
        if info.refCount < 0 || info.refCount > NEW_BUCKETS_PER_ADDRESS {
          return -3, tried, news, local;
        }
        if info.refCount == 0 {
          return -4, tried, news, local;
        }
        news := news[n := info.refCount];
        local := Bump(local, h.Network(info.addr), 1, 0);
      }
      if info.addr !in s.addrs || s.addrs[info.addr] != n {
        return -5, tried, news, local;
      }
      if info.randomPos < 0 || info.randomPos >= |s.random| || s.random[info.randomPos] != n {
        return -14, tried, news, local;
      }
      if info.lastTry < 0 {
        return -6, tried, news, local;
      }
      if info.lastSuccess < 0 {
        return -8, tried, news, local;
      }
      assert s.infos.Keys - (todo - {n}) == s.infos.Keys - todo + {n};
      todo := todo - {n};
    }
    assert s.infos.Keys - {} == s.infos.Keys;
    return 0, tried, news, local;
  }

  lemma GatheredNone(h: Hasher, infos: Infos)
    ensures Gathered(h, infos, infos.Keys - infos.Keys, {}, map[], map[])
  {
    assert infos.Keys - infos.Keys == {};
    forall net ensures Tally(h, infos, {}, net) == NewTriedCount(0, 0) {
      assert On(h, infos, {} * NewIds(infos, {}), net) == {} && On(h, infos, {} * TriedIds(infos), net) == {};
    }
  }

  method CheckTried(h: Hasher, s: Book, setTried: set<int>) returns (err: int, left: set<int>)
    requires Shaped(s.tried, TRIED_BUCKETS) && setTried == TriedIds(s.infos)
    ensures err != 0 ==> !TriedOk(h, s.infos, s.tried)
    ensures err == 0 ==> TriedCellsOk(h, s.infos, s.tried, TRIED_BUCKETS, 0)
    ensures err == 0 ==> left == TriedIds(s.infos) - SeenTried(h, s.infos, s.tried, TRIED_BUCKETS, 0)
  {
    hide SeenTried;
    left := setTried;
    assert SeenTried(h, s.infos, s.tried, 0, 0) == {} by {
      SeenTriedNone(h, s.infos, s.tried);
    }
    for n := 0 to TRIED_BUCKETS
      invariant TriedCellsOk(h, s.infos, s.tried, n, 0)
      invariant left == TriedIds(s.infos) - SeenTried(h, s.infos, s.tried, n, 0)
    {
      for i := 0 to BUCKET_SIZE
        invariant TriedCellsOk(h, s.infos, s.tried, n, i)
        invariant left == TriedIds(s.infos) - SeenTried(h, s.infos, s.tried, n, i)
      {
        SeenTriedNext(h, s.infos, s.tried, n, i);
        var id := s.tried[n][i];
        if id != EMPTY {
          if id !in left {
            assert !TriedCellOk(h, s.infos, n, i, id);
            return -11, left;
          }
          if id !in s.infos || h.TriedBucket(s.infos[id].addr) != n {
            return -17, left;
          }
          if h.positionHash(false, n, s.infos[id].addr) % BUCKET_SIZE != i {
            return -18, left;
          }
          assert TriedCellOk(h, s.infos, n, i, id);
          left := left - {id};
        }
      }
      SeenTriedRow(h, s.infos, s.tried, n);
    }
    return 0, left;
  }

  lemma SeenTriedNone(h: Hasher, infos: Infos, tried: Table)
    requires Shaped(tried, TRIED_BUCKETS)
    ensures SeenTried(h, infos, tried, 0, 0) == {}
  {
  }

  method CheckNew(h: Hasher, s: Book, mapNew: map<int, int>) returns (err: int, left: map<int, int>)
    requires Shaped(s.news, NEW_BUCKETS)
    requires mapNew.Keys == NewIds(s.infos, {})
    requires forall id :: id in mapNew ==> mapNew[id] == s.infos[id].refCount && mapNew[id] > 0
    ensures err != 0 ==> !NewOk(h, s.infos, s.news, {})
    ensures err == 0 ==> NewCellsOk(h, s.infos, s.news, NEW_BUCKETS, 0)
    ensures err == 0 ==> Remaining(h, s.infos, s.news, NEW_BUCKETS, 0, left)
  {
    hide Remaining, SeenNew;
    left := mapNew;
    RemainingStart(h, s.infos, s.news, left);
    for n := 0 to NEW_BUCKETS
      invariant NewCellsOk(h, s.infos, s.news, n, 0) && Remaining(h, s.infos, s.news, n, 0, left)
    {
      for i := 0 to BUCKET_SIZE
        invariant NewCellsOk(h, s.infos, s.news, n, i) && Remaining(h, s.infos, s.news, n, i, left)
      {
        RemainingNext(h, s.infos, s.news, n, i, left);
        var id := s.news[n][i];
        if id != EMPTY {
          if id !in left {
            NothingRemains(h, s.infos, s.news, n, i, left);
            return -12, left;
          }
          RemainingIds(h, s.infos, s.news, n, i, left);
          if id !in s.infos || h.NewPos(s.infos[id].addr, n) != i {
            assert !NewCellOk(h, s.infos, n, i, id);
            return -19, left;
          }
          left := if left[id] == 1 then left - {id} else left[id := left[id] - 1];
        }
      }
      SeenNewRow(h, s.infos, s.news, n);
      RemainingRow(h, s.infos, s.news, n, left);
    }
    return 0, left;
  }

  lemma RemainingIds(h: Hasher, infos: Infos, news: Table, n: nat, i: nat, left: map<int, int>)
    requires Shaped(news, NEW_BUCKETS) && Remaining(h, infos, news, n, i, left)
    ensures left.Keys <= NewIds(infos, {})
  {
  }

  lemma RemainingRow(h: Hasher, infos: Infos, news: Table, n: nat, left: map<int, int>)
    requires Shaped(news, NEW_BUCKETS) && Remaining(h, infos, news, n, BUCKET_SIZE, left)
    ensures Remaining(h, infos, news, n + 1, 0, left)
  {
    SeenNewRow(h, infos, news, n);
    hide SeenNew;
  }

  method CheckCounts(h: Hasher, s: Book, local: map<int, NewTriedCount>) returns (err: int)
    requires local.Keys == Networks(h, s.infos, s.infos.Keys)
    requires forall net :: CountOn(local, net) == Tally(h, s.infos, s.infos.Keys, net)
    ensures err == 0 <==> CountsConsistent(h, s)
  {
    hide Tally, Networks;
    assert |local| == |local.Keys| && |s.counts| == |s.counts.Keys|;
    if |s.counts| < |local| {
      return -20;
    }
    var todo := s.counts.Keys;
    while todo != {}
      invariant todo <= s.counts.Keys
      invariant forall net :: net in s.counts && net !in todo ==> s.counts[net] == Tally(h, s.infos, s.infos.Keys, net)
      decreases todo
    {
      ghost var some := SomeElement(todo);
      var net :| net in todo;
      if CountOn(local, net) != s.counts[net] {
        return -21;
      }
      todo := todo - {net};
    }
    return 0;
  }

  /** The check accepts the consistent states with a key, and no others. */
  method CheckAddrman(h: Hasher, s: Book, keyIsNull: bool) returns (err: int)
    requires Shaped(s.tried, TRIED_BUCKETS) && Shaped(s.news, NEW_BUCKETS)
    ensures err == 0 <==> Consistent(h, s) && !keyIsNull
  {
    hide TriedOk, NewOk, CountsConsistent, TriedCellsOk, NewCellsOk, Remaining, SeenTried, Gathered, EntryConsistent,
         Tally, Networks, TriedIds, NewIds;
    if |s.random| != s.nTried + s.nNew {
      return -7;
    }
    var setTried, mapNew, local;
    err, setTried, mapNew, local := CheckEntries(h, s);
    if err != 0 {
      return;
    }
    GatheredAll(h, s.infos, setTried, mapNew, local);
    EntriesHaveReferences(s);
    NotEmptyIfOk(h, s.infos, s.news);
    if |setTried| != s.nTried {
      return -9;
    }
    if |mapNew| != s.nNew {
      return -10;
    }
    err, setTried := CheckTried(h, s, setTried);
    if err != 0 {
      return;
    }
    err, mapNew := CheckNew(h, s, mapNew);
    if err != 0 {
      return;
    }
    NoTriedLeft(h, s.infos, s.tried, setTried);
    if setTried != {} {
      return -13;
    }
    NothingLeft(h, s.infos, s.news, mapNew);
    if mapNew != map[] {
      return -15;
    }
    if keyIsNull {
      return -16;
    }
    err := CheckCounts(h, s, local);
  }

  lemma EntriesHaveReferences(s: Book)
    requires forall id :: id in s.infos ==> EntryConsistent(s, id)
    ensures forall id :: id in s.infos && s.infos[id].inTried ==> s.infos[id].refCount == 0
    ensures forall id :: id in s.infos && !s.infos[id].inTried ==> 1 <= s.infos[id].refCount <= NEW_BUCKETS_PER_ADDRESS
    ensures forall id :: id in NewIds(s.infos, {}) ==> s.infos[id].refCount > 0
  {
  }

  lemma NotEmptyIfOk(h: Hasher, infos: Infos, news: Table)
    ensures NewOk(h, infos, news, {}) ==> EMPTY !in infos
  {
  }

  lemma GatheredAll(h: Hasher, infos: Infos, tried: set<int>, news: map<int, int>, local: map<int, NewTriedCount>)
    requires Gathered(h, infos, infos.Keys, tried, news, local)
    ensures tried == TriedIds(infos) && news.Keys == NewIds(infos, {}) && |news| == |NewIds(infos, {})|
    ensures forall id :: id in news ==> news[id] == infos[id].refCount
    ensures local.Keys == Networks(h, infos, infos.Keys)
    ensures forall net :: CountOn(local, net) == Tally(h, infos, infos.Keys, net)
  {
    hide Tally, Networks;
    assert infos.Keys * TriedIds(infos) == TriedIds(infos) && infos.Keys * NewIds(infos, {}) == NewIds(infos, {});
    assert |news| == |news.Keys|;
  }

  lemma NoTriedLeft(h: Hasher, infos: Infos, tried: Table, left: set<int>)
    requires Shaped(tried, TRIED_BUCKETS) && TriedCellsOk(h, infos, tried, TRIED_BUCKETS, 0)
    requires left == TriedIds(infos) - SeenTried(h, infos, tried, TRIED_BUCKETS, 0)
    requires forall id :: id in infos && infos[id].inTried ==> infos[id].refCount == 0
    ensures left == {} ==> TriedOk(h, infos, tried) && EMPTY !in TriedIds(infos)
    ensures left != {} ==> EMPTY in infos || !TriedOk(h, infos, tried)
  {
    forall b: nat, p: nat | b < TRIED_BUCKETS && p < BUCKET_SIZE && tried[b][p] != EMPTY
      ensures TriedCellOk(h, infos, b, p, tried[b][p])
    {
      assert Before(b, p, TRIED_BUCKETS, 0);
    }
    if left == {} {
      forall id | id in infos && infos[id].inTried ensures id != EMPTY && TriedCell(h, tried, infos[id].addr) == id {
        assert id in TriedIds(infos) && id !in left;
      }
    } else {
      var id := SomeElement(left);
      assert id in TriedIds(infos);
      assert Before(h.TriedBucket(infos[id].addr), h.TriedPos(infos[id].addr), TRIED_BUCKETS, 0);
    }
  }

  // ---------------------------------------------------------------- the check and the invariant

  function Elements(r: seq<int>): set<int> {
    set i | 0 <= i < |r| :: r[i]
  }

  lemma ElementsOfMore(r: seq<int>, x: int)
    ensures Elements(r + [x]) == Elements(r) + {x}
    ensures Distinct(r + [x]) <==> Distinct(r) && x !in Elements(r)
  {
    var r' := r + [x];
    forall y | y in Elements(r) + {x} ensures y in Elements(r') {
      if y == x {
        assert r'[|r|] == x;
      } else {
        var i :| 0 <= i < |r| && r[i] == y;
        assert r'[i] == y;
      }
    }
    if Distinct(r') {
      forall i | 0 <= i < |r| ensures r[i] != x {
        assert r'[i] != r'[|r|];
      }
      forall i, j | 0 <= i < j < |r| ensures r[i] != r[j] {
        assert r'[i] != r'[j];
      }
    }
  }

  /** A sequence has as many elements as places exactly when none repeats. */
  lemma {:induction false} DistinctSize(r: seq<int>)
    ensures |Elements(r)| <= |r| && (|Elements(r)| == |r| <==> Distinct(r))
  {
    if r == [] {
      assert Elements(r) == {};
    } else {
      var n := |r| - 1;
      DistinctSize(r[..n]);
      ElementsOfMore(r[..n], r[n]);
      assert r == r[..n] + [r[n]];
      hide Elements, Distinct;
    }
  }

  lemma HitsAreElements(infos: Infos, random: seq<int>)
    requires forall id :: id in infos ==> 0 <= infos[id].randomPos < |random| && random[infos[id].randomPos] == id
    ensures infos.Keys <= Elements(random)
  {
    forall id | id in infos.Keys ensures id in Elements(random) {
      assert random[infos[id].randomPos] == id;
    }
  }

  lemma ShuffledSize(infos: Infos, random: seq<int>)
    requires Shuffled(infos, random)
    ensures |random| == |infos.Keys|
  {
    assert Distinct(random);
    DistinctSize(random);
    HitsAreElements(infos, random);
    forall x | x in Elements(random) ensures x in infos.Keys {}
    assert Elements(random) == infos.Keys;
  }

  /** Positions that lead back to their entries, and as many places as entries: nothing else fits. */
  lemma ShuffledBySize(infos: Infos, random: seq<int>)
    requires forall id :: id in infos ==> 0 <= infos[id].randomPos < |random| && random[infos[id].randomPos] == id
    requires |random| == |infos.Keys|
    ensures Shuffled(infos, random)
  {
    HitsAreElements(infos, random);
    DistinctSize(random);
    SubsetSize(infos.Keys, Elements(random));
    SameSize(infos.Keys, Elements(random));
    forall i | 0 <= i < |random| ensures random[i] in infos && infos[random[i]].randomPos == i {
      assert random[i] in Elements(random);
    }
  }

  lemma SameSize<T>(a: set<T>, b: set<T>)
    requires a <= b && |a| == |b|
    ensures a == b
  {
    SubsetSize(b - a, b);
    assert a + (b - a) == b;
  }

  lemma NewAndTried(infos: Infos)
    ensures |infos.Keys| == |NewIds(infos, {})| + |TriedIds(infos)|
  {
    assert infos.Keys == NewIds(infos, {}) + TriedIds(infos);
  }

  lemma WholeTally(h: Hasher, infos: Infos, net: int)
    ensures Tally(h, infos, infos.Keys, net) ==
            NewTriedCount(|On(h, infos, NewIds(infos, {}), net)|, |On(h, infos, TriedIds(infos), net)|)
    ensures net in Networks(h, infos, infos.Keys) <==> Tally(h, infos, infos.Keys, net) != NewTriedCount(0, 0)
  {
    assert infos.Keys * TriedIds(infos) == TriedIds(infos) && infos.Keys * NewIds(infos, {}) == NewIds(infos, {});
    var n, t := On(h, infos, NewIds(infos, {}), net), On(h, infos, TriedIds(infos), net);
    if net in Networks(h, infos, infos.Keys) {
      var id :| id in infos && h.Network(infos[id].addr) == net;
      assert id in n || id in t;
    } else {
      forall id ensures id !in n && id !in t {
        assert id in infos ==> h.Network(infos[id].addr) in Networks(h, infos, infos.Keys);
      }
      assert n == {} && t == {};
    }
  }

  /** The network counters are right exactly when the check likes them and no network is missing. */
  lemma CountersAndCheck(h: Hasher, s: Book)
    ensures (forall net :: CountOn(s.counts, net) == Tally(h, s.infos, s.infos.Keys, net)) <==>
            CountsConsistent(h, s) && Networks(h, s.infos, s.infos.Keys) <= s.counts.Keys
  {
    forall net ensures net in Networks(h, s.infos, s.infos.Keys) <==>
                       Tally(h, s.infos, s.infos.Keys, net) != NewTriedCount(0, 0) {
      WholeTally(h, s.infos, net);
    }
    hide Tally, Networks;
    if Networks(h, s.infos, s.infos.Keys) <= s.counts.Keys {
      SubsetSize(Networks(h, s.infos, s.infos.Keys), s.counts.Keys);
      assert |s.counts| == |s.counts.Keys|;
    }
    if forall net :: CountOn(s.counts, net) == Tally(h, s.infos, s.infos.Keys, net) {
      forall net | net in Networks(h, s.infos, s.infos.Keys) ensures net in s.counts {
        assert CountOn(s.counts, net) != NewTriedCount(0, 0);
      }
    }
  }

  lemma CountedIsTallied(h: Hasher, s: Book)
    ensures Counted(h, s.infos, {}, s.nNew, s.nTried, s.counts) <==>
            && s.nNew == |NewIds(s.infos, {})| && s.nTried == |TriedIds(s.infos)|
            && forall net :: CountOn(s.counts, net) == Tally(h, s.infos, s.infos.Keys, net)
  {
    forall net ensures Tally(h, s.infos, s.infos.Keys, net) ==
      NewTriedCount(|On(h, s.infos, NewIds(s.infos, {}), net)|, |On(h, s.infos, TriedIds(s.infos), net)|)
    {
      WholeTally(h, s.infos, net);
    }
    hide Tally, NewIds, TriedIds, On;
  }

  /** What the check does not look at. */
  ghost predicate Unchecked(h: Hasher, s: Book) {
    && s.idCount >= 0 && (forall id :: id in s.infos ==> 0 <= id < s.idCount)
    && (forall a :: a in s.addrs ==> s.addrs[a] in s.infos && s.infos[s.addrs[a]].addr == a)
    && Networks(h, s.infos, s.infos.Keys) <= s.counts.Keys
  }

  lemma ConsistentTimes(h: Hasher, s: Book)
    ensures Consistent(h, s) ==> TimesOk(s.infos)
  {
    hide TriedOk, NewOk, CountsConsistent;
    if Consistent(h, s) {
      forall id | id in s.infos ensures EntryConsistent(s, id) {
      }
    }
  }

  /** The invariant is what the check accepts, together with what it does not look at. */
  lemma InvariantAndCheck(h: Hasher, s: Book)
    ensures BookOk(h, s, {}, {}) && TimesOk(s.infos) <==> Consistent(h, s) && Unchecked(h, s)
  {
    CountedIsTallied(h, s);
    CountersAndCheck(h, s);
    NewAndTried(s.infos);
    hide TriedOk, NewOk, Counted, CountsConsistent, Tally, Networks, NewIds, TriedIds;
    if BookOk(h, s, {}, {}) && TimesOk(s.infos) {
      ShuffledSize(s.infos, s.random);
      EntriesFromTables(h, s);
    }
    if Consistent(h, s) && Unchecked(h, s) {
      ShuffledBySize(s.infos, s.random);
    }
  }

  lemma EntriesFromTables(h: Hasher, s: Book)
    requires TriedOk(h, s.infos, s.tried) && NewOk(h, s.infos, s.news, {})
    ensures forall id :: id in s.infos && s.infos[id].inTried ==> s.infos[id].refCount == 0
    ensures forall id :: id in s.infos && !s.infos[id].inTried ==> 1 <= s.infos[id].refCount <= NEW_BUCKETS_PER_ADDRESS
  {
  }
}
