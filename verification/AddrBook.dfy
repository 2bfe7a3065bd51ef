/**
 The address manager's structures together, and what each internal operation makes of them.
 The operations pass through states in which some entries are in no table (`loose`) and some
 of those are in no counter (`uncounted`).
 */
module AddrBook {
  import opened Common
  import opened AddrModel

  datatype Book = Book(
    idCount: int,
    infos: Infos,
    addrs: map<Service, int>,
    random: seq<int>,
    nTried: int,
    tried: Table,
    nNew: int,
    news: Table,
    counts: map<int, NewTriedCount>)

  ghost predicate BookOk(h: Hasher, s: Book, loose: set<int>, uncounted: set<int>) {
    && s.idCount >= 0 && uncounted <= loose
    && Indexed(s.infos, s.addrs, s.idCount)
    && Shuffled(s.infos, s.random)
    && TriedOk(h, s.infos, s.tried)
    && NewOk(h, s.infos, s.news, loose)
    && Counted(h, s.infos, uncounted, s.nNew, s.nTried, s.counts)
  }

  function BookPlaces(h: Hasher, s: Book): Places
    requires Shaped(s.news, NEW_BUCKETS)
  {
    PlacesOf(h, s.infos, s.addrs, s.news)
  }

  /** If what is known of every other entry stays the same, the places change at one address only. */
  lemma PlacesChangedAt(h: Hasher, s: Book, s': Book, id: int)
    requires Indexed(s.infos, s.addrs, s.idCount) && Indexed(s'.infos, s'.addrs, s'.idCount)
    requires Shaped(s.news, NEW_BUCKETS) && Shaped(s'.news, NEW_BUCKETS)
    requires s'.addrs == s.addrs && id in s.infos && id in s'.infos && s'.infos[id].addr == s.infos[id].addr
    requires forall j :: j in s.infos && j != id ==>
               j in s'.infos && KnownOf(h, s'.news, j, s'.infos[j]) == KnownOf(h, s.news, j, s.infos[j])
    ensures BookPlaces(h, s') == BookPlaces(h, s)[s.infos[id].addr := KnownOf(h, s'.news, id, s'.infos[id])]
  {
    hide KnownOf;
    var a := s.infos[id].addr;
    assert s.addrs[a] == id;
    forall x | x in s.addrs ensures x in BookPlaces(h, s) && x in BookPlaces(h, s') {}
  }

  /** What the places say of an entry. */
  lemma PlaceOfEntry(h: Hasher, s: Book, id: int)
    requires Indexed(s.infos, s.addrs, s.idCount) && Shaped(s.news, NEW_BUCKETS) && id in s.infos
    ensures s.infos[id].addr in BookPlaces(h, s)
    ensures BookPlaces(h, s)[s.infos[id].addr] == KnownOf(h, s.news, id, s.infos[id])
  {
  }

  // ---------------------------------------------------------------- Create

  function FreshInfo(addr: Address, source: int, pos: int): AddrInfo {
    AddrInfo(addr.service, addr.time, addr.services, source, 0, 0, 0, 0, 0, false, pos)
  }

  /** The entry of an address announced for the first time, before it has a position in vRandom. */
  function Newcomer(addr: Address, source: int, penalty: int): AddrInfo {
    FreshInfo(addr, source, 0).(time := Max(0, addr.time - penalty))
  }

  function Created(h: Hasher, s: Book, addr: Address, source: int): Book {
    var id := s.idCount;
    s.(idCount := id + 1,
       infos := s.infos[id := FreshInfo(addr, source, |s.random|)],
       addrs := s.addrs[addr.service := id],
       random := s.random + [id],
       nNew := s.nNew + 1,
       counts := Bump(s.counts, h.Network(addr.service), 1, 0))
  }

  lemma CreatedOk(h: Hasher, s: Book, loose: set<int>, un: set<int>, addr: Address, source: int)
    requires BookOk(h, s, loose, un) && addr.service !in s.addrs
    ensures BookOk(h, Created(h, s, addr, source), loose + {s.idCount}, un)
  {
    var s', id := Created(h, s, addr, source), s.idCount;
    CreateIndexed(s.infos, s.addrs, id, s.random, s'.infos[id]);
    CreateInTables(h, s.infos, s.tried, s.news, loose, id, s'.infos[id]);
    assert id !in un;
    CreatedCounted(h, s, un, id, s'.infos[id]);
  }

  lemma CreatedCounted(h: Hasher, s: Book, un: set<int>, id: int, info: AddrInfo)
    requires Counted(h, s.infos, un, s.nNew, s.nTried, s.counts)
    requires id !in s.infos && id !in un && !info.inTried
    ensures Counted(h, s.infos[id := info], un, s.nNew + 1, s.nTried, Bump(s.counts, h.Network(info.addr), 1, 0))
  {
    var infos' := s.infos[id := info];
    assert NewIds(infos', un) == NewIds(s.infos, un) + {id} && TriedIds(infos') == TriedIds(s.infos);
    CountedNewPlus(h, s.infos, infos', un, un, id, s.nNew, s.nTried, s.counts);
  }

  lemma CreatedPlaces(h: Hasher, s: Book, loose: set<int>, addr: Address, source: int)
    requires Indexed(s.infos, s.addrs, s.idCount) && NewOk(h, s.infos, s.news, loose)
    requires s.idCount >= 0 && addr.service !in s.addrs
    ensures BookPlaces(h, Created(h, s, addr, source)) == BookPlaces(h, s)[addr.service := Known(source, New({}))]
  {
    assert s.idCount !in s.infos;
    NoCells(h, s.infos, s.news, loose, s.idCount, addr.service);
    IndexedPlaces(h, s.infos, s.addrs, s.idCount, s.news);
    hide NewOk, Buckets;
    var info := FreshInfo(addr, source, |s.random|);
    assert KnownOf(h, s.news, s.idCount, info) == Known(source, New({}));
  }

  /** Every indexed address is placed. */
  lemma IndexedPlaces(h: Hasher, infos: Infos, addrs: map<Service, int>, idCount: int, news: Table)
    requires Indexed(infos, addrs, idCount) && Shaped(news, NEW_BUCKETS)
    ensures PlacesOf(h, infos, addrs, news).Keys == addrs.Keys
  {
  }

  // ---------------------------------------------------------------- SwapRandom and Delete

  function SwappedBook(s: Book, i: nat, j: nat): Book
    requires i < |s.random| && j < |s.random| && s.random[i] in s.infos && s.random[j] in s.infos
  {
    if i == j then s
    else s.(infos := SwappedInfos(s.infos, s.random, i, j), random := Swapped(s.random, i, j))
  }

  lemma SwappedBookOk(h: Hasher, s: Book, loose: set<int>, un: set<int>, i: nat, j: nat)
    requires BookOk(h, s, loose, un) && i < |s.random| && j < |s.random|
    ensures BookOk(h, SwappedBook(s, i, j), loose, un)
  {
    if i != j {
      SwapShuffled(s.infos, s.random, i, j);
      var infos' := SwappedInfos(s.infos, s.random, i, j);
      SamePlacesKeep(h, s.infos, infos', s.addrs, s.idCount, s.tried, s.news, loose);
      SamePlacesCounted(h, s.infos, infos', un, s.nNew, s.nTried, s.counts);
    }
  }

  lemma SwappedIndexed(s: Book, i: nat, j: nat, id: int)
    requires Indexed(s.infos, s.addrs, s.idCount) && Shuffled(s.infos, s.random) && i < |s.random| && j < |s.random|
    requires id in s.infos
    ensures var s' := SwappedBook(s, i, j);
            && s' == s.(infos := s'.infos, random := s'.random) && |s'.random| == |s.random|
            && Indexed(s'.infos, s.addrs, s.idCount) && id in s'.infos && s'.infos[id].addr == s.infos[id].addr
  {
  }

  lemma SwappedBookPlaces(h: Hasher, s: Book, i: nat, j: nat)
    requires Shuffled(s.infos, s.random) && Shaped(s.news, NEW_BUCKETS) && i < |s.random| && j < |s.random|
    ensures BookPlaces(h, SwappedBook(s, i, j)) == BookPlaces(h, s)
  {
    if i != j {
      SwapShuffled(s.infos, s.random, i, j);
      SamePlacesAreTheSame(h, s.infos, SwappedInfos(s.infos, s.random, i, j), s.addrs, s.news);
    }
  }

  /** The entry at the end of vRandom is removed from every index. */
  function Dropped(h: Hasher, s: Book, id: int): Book
    requires id in s.infos && s.random != []
  {
    s.(infos := s.infos - {id}, addrs := s.addrs - {s.infos[id].addr}, random := s.random[..|s.random| - 1],
       nNew := s.nNew - 1, counts := Bump(s.counts, h.Network(s.infos[id].addr), -1, 0))
  }

  lemma DroppedOk(h: Hasher, s: Book, loose: set<int>, un: set<int>, id: int)
    requires BookOk(h, s, loose, un) && id in loose && id !in un
    requires s.random != [] && s.random[|s.random| - 1] == id
    ensures id in s.infos && BookOk(h, Dropped(h, s, id), loose - {id}, un)
    ensures s.nNew >= 1 && CountOn(s.counts, h.Network(s.infos[id].addr)).nNew >= 1
  {
    hide Indexed, Shuffled, TriedOk, NewOk, Counted;
    LooseEntry(h, s.infos, s.news, loose, id);
    DeleteIndexed(s.infos, s.addrs, s.idCount, s.random, id);
    DeleteInTables(h, s.infos, s.tried, s.news, loose, id);
    DroppedCounted(h, s, un, id);
  }

  lemma LooseEntry(h: Hasher, infos: Infos, news: Table, loose: set<int>, id: int)
    requires NewOk(h, infos, news, loose) && id in loose
    ensures id in infos && !infos[id].inTried && infos[id].refCount == 0
    ensures Buckets(h, news, id, infos[id].addr) == {}
  {
  }

  lemma DroppedCounted(h: Hasher, s: Book, un: set<int>, id: int)
    requires Counted(h, s.infos, un, s.nNew, s.nTried, s.counts)
    requires id in s.infos && !s.infos[id].inTried && id !in un
    ensures s.nNew >= 1 && CountOn(s.counts, h.Network(s.infos[id].addr)).nNew >= 1
    ensures Counted(h, s.infos - {id}, un, s.nNew - 1, s.nTried, Bump(s.counts, h.Network(s.infos[id].addr), -1, 0))
  {
    var infos' := s.infos - {id};
    assert NewIds(infos', un) == NewIds(s.infos, un) - {id} && TriedIds(infos') == TriedIds(s.infos);
    CountedNewMinus(h, s.infos, infos', un, un, id, s.nNew, s.nTried, s.counts);
  }

  lemma DroppedPlaces(h: Hasher, s: Book, id: int)
    requires Indexed(s.infos, s.addrs, s.idCount) && Shaped(s.news, NEW_BUCKETS)
    requires id in s.infos && s.random != []
    ensures BookPlaces(h, Dropped(h, s, id)) == BookPlaces(h, s) - {s.infos[id].addr}
  {
  }

  ghost predicate Deletable(s: Book, id: int) {
    && id in s.infos && s.random != [] && 0 <= s.infos[id].randomPos < |s.random|
    && s.random[s.infos[id].randomPos] == id && s.random[|s.random| - 1] in s.infos
  }

  /** Delete: the position is swapped to the end, and the entry removed. */
  ghost function Deleted(h: Hasher, s: Book, id: int): Book
    requires Deletable(s, id)
  {
    Dropped(h, SwappedBook(s, s.infos[id].randomPos, |s.random| - 1), id)
  }

  lemma EveryEntryIsDeletable(s: Book, id: int)
    requires Shuffled(s.infos, s.random) && id in s.infos
    ensures Deletable(s, id)
  {
  }

  lemma DeletedOk(h: Hasher, s: Book, loose: set<int>, un: set<int>, id: int)
    requires BookOk(h, s, loose, un) && id in loose && id !in un
    ensures Deletable(s, id) && BookOk(h, Deleted(h, s, id), loose - {id}, un)
    ensures s.nNew >= 1 && CountOn(s.counts, h.Network(s.infos[id].addr)).nNew >= 1
  {
    hide Indexed, Shuffled, TriedOk, NewOk, Counted;
    LooseEntry(h, s.infos, s.news, loose, id);
    EveryEntryIsDeletable(s, id);
    SwappedBookOk(h, s, loose, un, s.infos[id].randomPos, |s.random| - 1);
    DroppedOk(h, SwappedBook(s, s.infos[id].randomPos, |s.random| - 1), loose, un, id);
  }

  lemma DeletedPlaces(h: Hasher, s: Book, id: int)
    requires Indexed(s.infos, s.addrs, s.idCount) && Shuffled(s.infos, s.random) && Shaped(s.news, NEW_BUCKETS)
    requires id in s.infos
    ensures Deletable(s, id) && BookPlaces(h, Deleted(h, s, id)) == BookPlaces(h, s) - {s.infos[id].addr}
  {
    hide Indexed, Shuffled, BookPlaces, SwappedBook;
    EveryEntryIsDeletable(s, id);
    var i, j := s.infos[id].randomPos, |s.random| - 1;
    SwappedBookPlaces(h, s, i, j);
    SwappedIndexed(s, i, j, id);
    DroppedPlaces(h, SwappedBook(s, i, j), id);
  }

  // ---------------------------------------------------------------- cells of the new table

  function WithRefCount(infos: Infos, id: int, n: int): Infos
    requires id in infos
  {
    infos[id := infos[id].(refCount := n)]
  }

  lemma RefCountKeeps(h: Hasher, s: Book, un: set<int>, id: int, n: int)
    requires id in s.infos
    ensures Indexed(s.infos, s.addrs, s.idCount) ==> Indexed(WithRefCount(s.infos, id, n), s.addrs, s.idCount)
    ensures Shuffled(s.infos, s.random) ==> Shuffled(WithRefCount(s.infos, id, n), s.random)
    ensures Counted(h, s.infos, un, s.nNew, s.nTried, s.counts) ==>
            Counted(h, WithRefCount(s.infos, id, n), un, s.nNew, s.nTried, s.counts)
  {
    var infos' := WithRefCount(s.infos, id, n);
    assert NewIds(infos', un) == NewIds(s.infos, un) && TriedIds(infos') == TriedIds(s.infos);
    if Counted(h, s.infos, un, s.nNew, s.nTried, s.counts) {
      CountedSame(h, s.infos, infos', un, un, s.nNew, s.nTried, s.counts);
    }
  }

  /** One cell emptied and one reference taken. */
  function CellLost(s: Book, b: nat, p: nat): Book
    requires b < |s.news| && p < |s.news[b]| && s.news[b][p] in s.infos
  {
    var id := s.news[b][p];
    s.(infos := WithRefCount(s.infos, id, s.infos[id].refCount - 1), news := Put(s.news, b, p, EMPTY))
  }

  lemma CellLostOk(h: Hasher, s: Book, loose: set<int>, un: set<int>, b: nat, p: nat)
    requires BookOk(h, s, loose, un) && Shaped(s.news, NEW_BUCKETS)
    requires b < NEW_BUCKETS && p < BUCKET_SIZE && s.news[b][p] != EMPTY
    ensures var id := s.news[b][p];
            && id in s.infos && !s.infos[id].inTried && s.infos[id].refCount >= 1 && id !in loose
            && BookOk(h, CellLost(s, b, p), if s.infos[id].refCount == 1 then loose + {id} else loose, un)
  {
    hide Indexed, Shuffled, TriedOk, NewOk, Counted;
    ClearCellKeeps(h, s.infos, s.news, loose, b, p);
    var id := s.news[b][p];
    RefCountTriedOk(h, s.infos, s.tried, id, s.infos[id].refCount - 1);
    RefCountKeeps(h, s, un, id, s.infos[id].refCount - 1);
  }

  lemma CellLostKnown(h: Hasher, s: Book, loose: set<int>, b: nat, p: nat)
    requires NewOk(h, s.infos, s.news, loose)
    requires b < NEW_BUCKETS && p < BUCKET_SIZE && s.news[b][p] != EMPTY
    ensures s.news[b][p] in s.infos && Shaped(CellLost(s, b, p).news, NEW_BUCKETS)
    ensures var id, s' := s.news[b][p], CellLost(s, b, p);
            && Holds(h, KnownOf(h, s.news, id, s.infos[id]), s.infos[id].addr, b, p)
            && KnownOf(h, s'.news, id, s'.infos[id]) ==
               Known(s.infos[id].source, New(KnownOf(h, s.news, id, s.infos[id]).place.buckets - {b}))
            && forall j :: j in s.infos && j != id ==>
                 KnownOf(h, s'.news, j, s'.infos[j]) == KnownOf(h, s.news, j, s.infos[j])
  {
    var id := s.news[b][p];
    assert NewCellOk(h, s.infos, b, p, id);
    var s' := CellLost(s, b, p);
    CellLostFrom(h, s.news, b, p, id, s.infos[id].addr);
    forall j | j in s.infos && j != id
      ensures KnownOf(h, s'.news, j, s'.infos[j]) == KnownOf(h, s.news, j, s.infos[j])
    {
      CellLostFrom(h, s.news, b, p, j, s.infos[j].addr);
    }
  }

  /** The address at the cell loses the bucket; no other address is touched. */
  lemma CellLostPlaces(h: Hasher, s: Book, loose: set<int>, b: nat, p: nat)
    requires Indexed(s.infos, s.addrs, s.idCount) && NewOk(h, s.infos, s.news, loose) && Shaped(s.news, NEW_BUCKETS)
    requires b < NEW_BUCKETS && p < BUCKET_SIZE && s.news[b][p] != EMPTY
    ensures s.news[b][p] in s.infos && Shaped(CellLost(s, b, p).news, NEW_BUCKETS)
    ensures var info := s.infos[s.news[b][p]];
            && info.addr in BookPlaces(h, s) && Holds(h, BookPlaces(h, s)[info.addr], info.addr, b, p)
            && BookPlaces(h, CellLost(s, b, p)) ==
               BookPlaces(h, s)[info.addr := Known(info.source, New(BookPlaces(h, s)[info.addr].place.buckets - {b}))]
  {
    hide NewOk, Indexed, Counted, Shuffled, BookPlaces, KnownOf;
    var id := s.news[b][p];
    CellLostKnown(h, s, loose, b, p);
    RefCountKeeps(h, s, {}, id, s.infos[id].refCount - 1);
    PlaceOfEntry(h, s, id);
    PlacesChangedAt(h, s, CellLost(s, b, p), id);
  }

  lemma CellLostFrom(h: Hasher, news: Table, b: nat, p: nat, id: int, a: Service)
    requires Shaped(news, NEW_BUCKETS) && b < NEW_BUCKETS && p < BUCKET_SIZE && id != EMPTY
    requires news[b][p] == id ==> h.NewPos(a, b) == p
    ensures Shaped(Put(news, b, p, EMPTY), NEW_BUCKETS)
    ensures Buckets(h, Put(news, b, p, EMPTY), id, a) ==
            if news[b][p] == id then Buckets(h, news, id, a) - {b} else Buckets(h, news, id, a)
  {
    BucketsPut(h, news, b, p, EMPTY, id, a);
  }

  /** The address whose id is in the cell holds it, and no other. */
  lemma OneHolder(h: Hasher, s: Book, loose: set<int>, b: nat, p: nat)
    requires Indexed(s.infos, s.addrs, s.idCount) && NewOk(h, s.infos, s.news, loose)
    requires b < NEW_BUCKETS && p < BUCKET_SIZE
    ensures s.news[b][p] != EMPTY ==> s.news[b][p] in s.infos && s.infos[s.news[b][p]].addr in BookPlaces(h, s)
    ensures var pl := BookPlaces(h, s);
            forall a :: a in pl ==>
              (Holds(h, pl[a], a, b, p) <==> s.news[b][p] != EMPTY && a == s.infos[s.news[b][p]].addr)
  {
    if s.news[b][p] != EMPTY {
      assert NewCellOk(h, s.infos, b, p, s.news[b][p]);
    }
  }

  ghost predicate CellClearable(s: Book, b: nat, p: nat) {
    && b < |s.news| && p < |s.news[b]|
    && (s.news[b][p] != EMPTY ==>
          s.news[b][p] in s.infos && Deletable(CellLost(s, b, p), s.news[b][p]))
  }

  /** ClearNew. */
  ghost function NewCleared(h: Hasher, s: Book, b: nat, p: nat): Book
    requires CellClearable(s, b, p)
  {
    if s.news[b][p] == EMPTY then s
    else if s.infos[s.news[b][p]].refCount == 1 then Deleted(h, CellLost(s, b, p), s.news[b][p])
    else CellLost(s, b, p)
  }

  lemma NewClearedOk(h: Hasher, s: Book, loose: set<int>, un: set<int>, b: nat, p: nat)
    requires BookOk(h, s, loose, un) && Shaped(s.news, NEW_BUCKETS) && b < NEW_BUCKETS && p < BUCKET_SIZE
    ensures CellClearable(s, b, p) && BookOk(h, NewCleared(h, s, b, p), loose, un)
    ensures s.news[b][p] != EMPTY ==> !s.infos[s.news[b][p]].inTried && s.infos[s.news[b][p]].refCount > 0
    ensures NewCleared(h, s, b, p).news == Put(s.news, b, p, EMPTY)
    ensures NewCleared(h, s, b, p).tried == s.tried && NewCleared(h, s, b, p).idCount == s.idCount
  {
    hide Indexed, Shuffled, TriedOk, NewOk, Counted;
    if s.news[b][p] != EMPTY {
      CellLostOk(h, s, loose, un, b, p);
      var id := s.news[b][p];
      EveryEntryIsDeletable(CellLost(s, b, p), id);
      if s.infos[id].refCount == 1 {
        DeletedOk(h, CellLost(s, b, p), loose + {id}, un, id);
        assert loose + {id} - {id} == loose;
      }
    } else {
      assert s.news[b][p := EMPTY] == s.news[b];
    }
  }

  lemma NewClearedPlaces(h: Hasher, s: Book, loose: set<int>, un: set<int>, b: nat, p: nat)
    requires BookOk(h, s, loose, un) && Shaped(s.news, NEW_BUCKETS) && b < NEW_BUCKETS && p < BUCKET_SIZE
    ensures CellClearable(s, b, p) && Shaped(NewCleared(h, s, b, p).news, NEW_BUCKETS)
    ensures BookPlaces(h, NewCleared(h, s, b, p)) == Cleared(h, BookPlaces(h, s), b, p)
  {
    hide Indexed, Shuffled, TriedOk, NewOk, Counted, Cleared, BookPlaces;
    NewClearedOk(h, s, loose, un, b, p);
    OneHolder(h, s, loose, b, p);
    if s.news[b][p] == EMPTY {
      ClearedOfNobody(h, BookPlaces(h, s), b, p);
    } else {
      var id := s.news[b][p];
      CellLostOk(h, s, loose, un, b, p);
      CellLostPlaces(h, s, loose, b, p);
      ClearedOfHolder(h, BookPlaces(h, s), b, p, s.infos[id].addr);
      LastCell(h, s, loose, b, p);
      if s.infos[id].refCount == 1 {
        DeletedPlaces(h, CellLost(s, b, p), id);
      }
    }
  }

  /** The entry has one reference exactly when this is its last bucket. */
  lemma LastCell(h: Hasher, s: Book, loose: set<int>, b: nat, p: nat)
    requires Indexed(s.infos, s.addrs, s.idCount) && NewOk(h, s.infos, s.news, loose)
    requires b < NEW_BUCKETS && p < BUCKET_SIZE && s.news[b][p] != EMPTY
    ensures s.news[b][p] in s.infos && s.infos[s.news[b][p]].addr in BookPlaces(h, s)
    ensures var k := BookPlaces(h, s)[s.infos[s.news[b][p]].addr];
            k.place.New? && k.source == s.infos[s.news[b][p]].source &&
            (s.infos[s.news[b][p]].refCount == 1 <==> k.place.buckets - {b} == {})
  {
    var id := s.news[b][p];
    assert NewCellOk(h, s.infos, b, p, id);
    var bs := Buckets(h, s.news, id, s.infos[id].addr);
    assert b in bs && bs == (bs - {b}) + {b};
    assert |(bs - {b}) + {b}| == |bs - {b}| + 1;
  }

  /** One cell filled and one reference given. */
  function CellGained(s: Book, b: nat, p: nat, id: int): Book
    requires b < |s.news| && p < |s.news[b]| && id in s.infos
  {
    s.(infos := WithRefCount(s.infos, id, s.infos[id].refCount + 1), news := Put(s.news, b, p, id))
  }

  ghost predicate MayGain(h: Hasher, s: Book, b: nat, p: nat, id: int) {
    && Shaped(s.news, NEW_BUCKETS) && b < NEW_BUCKETS && p < BUCKET_SIZE && s.news[b][p] == EMPTY
    && id in s.infos && !s.infos[id].inTried && h.NewPos(s.infos[id].addr, b) == p
    && s.infos[id].refCount < NEW_BUCKETS_PER_ADDRESS
  }

  lemma CellGainedOk(h: Hasher, s: Book, loose: set<int>, un: set<int>, b: nat, p: nat, id: int)
    requires BookOk(h, s, loose, un) && MayGain(h, s, b, p, id) && id !in un
    ensures BookOk(h, CellGained(s, b, p, id), loose - {id}, un)
  {
    hide Indexed, Shuffled, TriedOk, NewOk, Counted;
    FillCellKeeps(h, s.infos, s.news, loose, b, p, id);
    RefCountTriedOk(h, s.infos, s.tried, id, s.infos[id].refCount + 1);
    RefCountKeeps(h, s, un, id, s.infos[id].refCount + 1);
  }

  lemma CellGainedBy(h: Hasher, news: Table, b: nat, p: nat, x: int, id: int, a: Service)
    requires Shaped(news, NEW_BUCKETS) && b < NEW_BUCKETS && p < BUCKET_SIZE && news[b][p] == EMPTY
    requires id != EMPTY && (x == id ==> h.NewPos(a, b) == p)
    ensures Shaped(Put(news, b, p, x), NEW_BUCKETS)
    ensures Buckets(h, Put(news, b, p, x), id, a) ==
            if x == id then Buckets(h, news, id, a) + {b} else Buckets(h, news, id, a)
  {
    BucketsPut(h, news, b, p, x, id, a);
  }

  lemma CellGainedKnown(h: Hasher, s: Book, b: nat, p: nat, id: int)
    requires MayGain(h, s, b, p, id) && EMPTY !in s.infos
    ensures var s' := CellGained(s, b, p, id);
            && Shaped(s'.news, NEW_BUCKETS)
            && KnownOf(h, s'.news, id, s'.infos[id]) ==
               Known(s.infos[id].source, New(Buckets(h, s.news, id, s.infos[id].addr) + {b}))
            && forall j :: j in s.infos && j != id ==>
                 KnownOf(h, s'.news, j, s'.infos[j]) == KnownOf(h, s.news, j, s.infos[j])
  {
    var s' := CellGained(s, b, p, id);
    CellGainedBy(h, s.news, b, p, id, id, s.infos[id].addr);
    forall j | j in s.infos && j != id
      ensures KnownOf(h, s'.news, j, s'.infos[j]) == KnownOf(h, s.news, j, s.infos[j])
    {
      CellGainedBy(h, s.news, b, p, id, j, s.infos[j].addr);
    }
  }

  lemma CellGainedPlaces(h: Hasher, s: Book, b: nat, p: nat, id: int)
    requires Indexed(s.infos, s.addrs, s.idCount) && MayGain(h, s, b, p, id) && EMPTY !in s.infos
    ensures Shaped(CellGained(s, b, p, id).news, NEW_BUCKETS)
    ensures var a := s.infos[id].addr;
            && a in BookPlaces(h, s) && BookPlaces(h, s)[a].place.New?
            && BookPlaces(h, CellGained(s, b, p, id)) == Filled(BookPlaces(h, s), a, b)
  {
    hide Indexed, Shuffled, Counted, BookPlaces;
    PlaceOfEntry(h, s, id);
    CellGainedKnown(h, s, b, p, id);
    RefCountKeeps(h, s, {}, id, s.infos[id].refCount + 1);
    PlacesChangedAt(h, s, CellGained(s, b, p, id), id);
  }

  // ---------------------------------------------------------------- moves between the tables

  /** A loose entry leaves the counters of new, or joins them. */
  function Uncounted(h: Hasher, s: Book, id: int): Book
    requires id in s.infos
  {
    s.(nNew := s.nNew - 1, counts := Bump(s.counts, h.Network(s.infos[id].addr), -1, 0))
  }

  lemma UncountedOk(h: Hasher, s: Book, loose: set<int>, un: set<int>, id: int)
    requires BookOk(h, s, loose, un) && id in loose && id !in un
    ensures id in s.infos && BookOk(h, Uncounted(h, s, id), loose, un + {id})
    ensures s.nNew >= 1 && CountOn(s.counts, h.Network(s.infos[id].addr)).nNew >= 1
  {
    hide Indexed, Shuffled, TriedOk, NewOk, Counted;
    LooseEntry(h, s.infos, s.news, loose, id);
    UncountedCounted(h, s, un, id);
  }

  lemma UncountedCounted(h: Hasher, s: Book, un: set<int>, id: int)
    requires Counted(h, s.infos, un, s.nNew, s.nTried, s.counts) && id in s.infos && !s.infos[id].inTried && id !in un
    ensures Counted(h, s.infos, un + {id}, s.nNew - 1, s.nTried, Bump(s.counts, h.Network(s.infos[id].addr), -1, 0))
    ensures s.nNew >= 1 && CountOn(s.counts, h.Network(s.infos[id].addr)).nNew >= 1
  {
    hide Counted;
    assert NewIds(s.infos, un + {id}) == NewIds(s.infos, un) - {id};
    CountedNewMinus(h, s.infos, s.infos, un, un + {id}, id, s.nNew, s.nTried, s.counts);
  }

  /** The entry of a tried slot is taken out. */
  function TriedLeft(h: Hasher, s: Book, b: nat, p: nat): Book
    requires b < |s.tried| && p < |s.tried[b]| && s.tried[b][p] in s.infos
  {
    var id := s.tried[b][p];
    s.(infos := s.infos[id := s.infos[id].(inTried := false)], tried := Put(s.tried, b, p, EMPTY),
       nTried := s.nTried - 1, counts := Bump(s.counts, h.Network(s.infos[id].addr), 0, -1))
  }

  lemma InTriedKeeps(s: Book, id: int, inTried: bool)
    requires id in s.infos
    ensures var infos' := s.infos[id := s.infos[id].(inTried := inTried)];
            && (Indexed(s.infos, s.addrs, s.idCount) ==> Indexed(infos', s.addrs, s.idCount))
            && (Shuffled(s.infos, s.random) ==> Shuffled(infos', s.random))
  {
  }

  lemma TriedLeftOk(h: Hasher, s: Book, loose: set<int>, un: set<int>, b: nat, p: nat)
    requires BookOk(h, s, loose, un) && Shaped(s.tried, TRIED_BUCKETS)
    requires b < TRIED_BUCKETS && p < BUCKET_SIZE && s.tried[b][p] != EMPTY
    ensures var id := s.tried[b][p];
            && id in s.infos && s.infos[id].inTried && s.infos[id].refCount == 0 && id !in loose
            && h.TriedBucket(s.infos[id].addr) == b && h.TriedPos(s.infos[id].addr) == p
            && BookOk(h, TriedLeft(h, s, b, p), loose + {id}, un + {id})
    ensures s.nTried >= 1 && CountOn(s.counts, h.Network(s.infos[s.tried[b][p]].addr)).nTried >= 1
  {
    hide Indexed, Shuffled, TriedOk, NewOk, Counted;
    LeaveTried(h, s.infos, s.tried, s.news, loose, b, p);
    var id := s.tried[b][p];
    if id in loose {
      LooseEntry(h, s.infos, s.news, loose, id);
    }
    InTriedKeeps(s, id, false);
    TriedLeftCounted(h, s, un, id);
  }

  lemma TriedLeftCounted(h: Hasher, s: Book, un: set<int>, id: int)
    requires Counted(h, s.infos, un, s.nNew, s.nTried, s.counts) && id in s.infos && s.infos[id].inTried
    ensures Counted(h, s.infos[id := s.infos[id].(inTried := false)], un + {id}, s.nNew, s.nTried - 1,
                    Bump(s.counts, h.Network(s.infos[id].addr), 0, -1))
    ensures s.nTried >= 1 && CountOn(s.counts, h.Network(s.infos[id].addr)).nTried >= 1
  {
    hide Counted;
    var infos' := s.infos[id := s.infos[id].(inTried := false)];
    assert NewIds(infos', un + {id}) == NewIds(s.infos, un) && TriedIds(infos') == TriedIds(s.infos) - {id};
    CountedTriedMinus(h, s.infos, infos', un, un + {id}, id, s.nNew, s.nTried, s.counts);
  }

  lemma TriedLeftPlaces(h: Hasher, s: Book, loose: set<int>, un: set<int>, b: nat, p: nat)
    requires BookOk(h, s, loose, un) && Shaped(s.tried, TRIED_BUCKETS) && Shaped(s.news, NEW_BUCKETS)
    requires b < TRIED_BUCKETS && p < BUCKET_SIZE && s.tried[b][p] != EMPTY
    ensures s.tried[b][p] in s.infos
    ensures var info := s.infos[s.tried[b][p]];
            && info.addr in BookPlaces(h, s) && BookPlaces(h, s)[info.addr] == Known(info.source, Tried)
            && BookPlaces(h, TriedLeft(h, s, b, p)) == BookPlaces(h, s)[info.addr := Known(info.source, New({}))]
  {
    hide Indexed, Shuffled, TriedOk, NewOk, Counted, BookPlaces, Buckets;
    var id := s.tried[b][p];
    LeaveTried(h, s.infos, s.tried, s.news, loose, b, p);
    InTriedKeeps(s, id, false);
    var infos' := s.infos[id := s.infos[id].(inTried := false)];
    LooseEntry(h, infos', s.news, loose + {id}, id);
    PlaceOfEntry(h, s, id);
    PlacesChangedAt(h, s, TriedLeft(h, s, b, p), id);
  }

  /** An evicted entry is put into a cell of new and counted there. */
  function NewEntered(h: Hasher, s: Book, b: nat, p: nat, id: int): Book
    requires b < |s.news| && p < |s.news[b]| && id in s.infos
  {
    CellGained(s, b, p, id).(nNew := s.nNew + 1, counts := Bump(s.counts, h.Network(s.infos[id].addr), 1, 0))
  }

  lemma NewEnteredOk(h: Hasher, s: Book, loose: set<int>, un: set<int>, b: nat, p: nat, id: int)
    requires BookOk(h, s, loose, un) && MayGain(h, s, b, p, id) && id in un
    ensures BookOk(h, NewEntered(h, s, b, p, id), loose - {id}, un - {id})
  {
    hide Indexed, Shuffled, TriedOk, NewOk, Counted;
    FillCellKeeps(h, s.infos, s.news, loose, b, p, id);
    RefCountTriedOk(h, s.infos, s.tried, id, s.infos[id].refCount + 1);
    RefCountKeeps(h, s, un, id, s.infos[id].refCount + 1);
    NewEnteredCounted(h, s, WithRefCount(s.infos, id, s.infos[id].refCount + 1), un, id);
  }

  lemma NewEnteredCounted(h: Hasher, s: Book, infos: Infos, un: set<int>, id: int)
    requires Counted(h, infos, un, s.nNew, s.nTried, s.counts) && id in infos && !infos[id].inTried && id in un
    ensures Counted(h, infos, un - {id}, s.nNew + 1, s.nTried, Bump(s.counts, h.Network(infos[id].addr), 1, 0))
  {
    hide Counted;
    assert NewIds(infos, un - {id}) == NewIds(infos, un) + {id};
    CountedNewPlus(h, infos, infos, un, un - {id}, id, s.nNew, s.nTried, s.counts);
  }

  /** A loose entry is put into its tried slot. */
  function TriedEntered(h: Hasher, s: Book, id: int): Book
    requires id in s.infos && Shaped(s.tried, TRIED_BUCKETS)
  {
    var a := s.infos[id].addr;
    s.(infos := s.infos[id := s.infos[id].(inTried := true)],
       tried := Put(s.tried, h.TriedBucket(a), h.TriedPos(a), id),
       nTried := s.nTried + 1, counts := Bump(s.counts, h.Network(a), 0, 1))
  }

  lemma TriedEnteredOk(h: Hasher, s: Book, loose: set<int>, un: set<int>, id: int)
    requires BookOk(h, s, loose, un) && Shaped(s.tried, TRIED_BUCKETS) && id in un && id in s.infos
    requires TriedCell(h, s.tried, s.infos[id].addr) == EMPTY
    ensures BookOk(h, TriedEntered(h, s, id), loose - {id}, un - {id})
  {
    hide Indexed, Shuffled, TriedOk, NewOk, Counted;
    LooseEntry(h, s.infos, s.news, loose, id);
    EnterTried(h, s.infos, s.tried, s.news, loose, id);
    InTriedKeeps(s, id, true);
    TriedEnteredCounted(h, s, un, id);
  }

  lemma TriedEnteredCounted(h: Hasher, s: Book, un: set<int>, id: int)
    requires Counted(h, s.infos, un, s.nNew, s.nTried, s.counts) && id in s.infos && !s.infos[id].inTried && id in un
    ensures Counted(h, s.infos[id := s.infos[id].(inTried := true)], un - {id}, s.nNew, s.nTried + 1,
                    Bump(s.counts, h.Network(s.infos[id].addr), 0, 1))
  {
    hide Counted;
    var infos' := s.infos[id := s.infos[id].(inTried := true)];
    assert NewIds(infos', un - {id}) == NewIds(s.infos, un) && TriedIds(infos') == TriedIds(s.infos) + {id};
    CountedTriedPlus(h, s.infos, infos', un, un - {id}, id, s.nNew, s.nTried, s.counts);
  }

  lemma TriedEnteredPlaces(h: Hasher, s: Book, id: int)
    requires Indexed(s.infos, s.addrs, s.idCount) && Shaped(s.tried, TRIED_BUCKETS) && Shaped(s.news, NEW_BUCKETS)
    requires id in s.infos
    ensures s.infos[id].addr in BookPlaces(h, s)
    ensures BookPlaces(h, TriedEntered(h, s, id)) ==
            BookPlaces(h, s)[s.infos[id].addr := Known(s.infos[id].source, Tried)]
  {
    hide Indexed, Shuffled, BookPlaces, Buckets;
    InTriedKeeps(s, id, true);
    PlaceOfEntry(h, s, id);
    PlacesChangedAt(h, s, TriedEntered(h, s, id), id);
  }

  // ---------------------------------------------------------------- leaving every new bucket

  /** The bucket visited in round m. */
  function Nth(start: nat, m: nat): (b: nat)
    ensures b < NEW_BUCKETS
  { (start + m) % NEW_BUCKETS }

  /** Part of the way round the new buckets: an entry has lost the cells of the first n buckets
      counted from `start`, and nothing else has changed. */
  ghost predicate Leaving(h: Hasher, s0: Book, s: Book, id: int, start: nat, n: nat) {
    && id in s0.infos && id in s.infos && !s.infos[id].inTried
    && Shaped(s.news, NEW_BUCKETS)
    && s == s0.(infos := WithRefCount(s0.infos, id, s.infos[id].refCount), news := s.news)
    && BookOk(h, s, if s.infos[id].refCount == 0 then {id} else {}, {})
    && forall m: nat :: m < n ==> Nth(start, m) !in Buckets(h, s.news, id, s.infos[id].addr)
  }

  /** The places while it leaves. */
  ghost predicate LeavingPlaces(h: Hasher, s0: Book, s: Book, id: int) {
    && Shaped(s0.news, NEW_BUCKETS) && Shaped(s.news, NEW_BUCKETS) && id in s0.infos && id in s.infos
    && var info := s0.infos[id];
       BookPlaces(h, s) == BookPlaces(h, s0)[info.addr := Known(info.source, New(Buckets(h, s.news, id, info.addr)))]
  }

  lemma LeavingStarts(h: Hasher, s: Book, id: int, start: nat)
    requires BookOk(h, s, {}, {}) && Shaped(s.news, NEW_BUCKETS) && id in s.infos
    requires !s.infos[id].inTried && s.infos[id].refCount > 0
    ensures Leaving(h, s, s, id, start, 0) && LeavingPlaces(h, s, s, id) && s.infos[id].addr in BookPlaces(h, s)
  {
    hide Indexed, Shuffled, TriedOk, NewOk, Counted, BookPlaces;
    PlaceOfEntry(h, s, id);
    assert BookPlaces(h, s) == BookPlaces(h, s)[s.infos[id].addr := BookPlaces(h, s)[s.infos[id].addr]];
  }

  lemma LeavingOnward(h: Hasher, s0: Book, s: Book, id: int, start: nat, n: nat)
    requires Leaving(h, s0, s, id, start, n) && s.infos[id].refCount != 0
    ensures var b := Nth(start, n);
            var p := h.NewPos(s.infos[id].addr, b);
            if s.news[b][p] == id then Leaving(h, s0, CellLost(s, b, p), id, start, n + 1)
            else Leaving(h, s0, s, id, start, n + 1)
  {
    hide Indexed, Shuffled, TriedOk, NewOk, Counted;
    var b := Nth(start, n);
    var a := s.infos[id].addr;
    var p := h.NewPos(a, b);
    NotEmptyId(h, s, id);
    if s.news[b][p] == id {
      CellLostOk(h, s, {}, {}, b, p);
      CellLostFrom(h, s.news, b, p, id, a);
      assert forall m: nat :: m < n + 1 ==> Nth(start, m) !in Buckets(h, s.news, id, a) - {b};
      var refs := s.infos[id].refCount - 1;
      assert WithRefCount(s.infos, id, refs) == WithRefCount(s0.infos, id, refs);
      assert {} + {id} == {id};
    } else {
      assert b !in Buckets(h, s.news, id, a);
    }
  }

  lemma NotEmptyId(h: Hasher, s: Book, id: int)
    requires Indexed(s.infos, s.addrs, s.idCount) && id in s.infos
    ensures id != EMPTY && EMPTY !in s.infos
  {
  }

  lemma LeavingPlacesOnward(h: Hasher, s0: Book, s: Book, id: int, start: nat, n: nat)
    requires Leaving(h, s0, s, id, start, n) && LeavingPlaces(h, s0, s, id) && s.infos[id].refCount != 0
    ensures var b := Nth(start, n);
            var p := h.NewPos(s.infos[id].addr, b);
            s.news[b][p] == id ==> LeavingPlaces(h, s0, CellLost(s, b, p), id)
  {
    hide Indexed, Shuffled, TriedOk, NewOk, Counted, BookPlaces, Buckets;
    var b := Nth(start, n);
    var a := s.infos[id].addr;
    var p := h.NewPos(a, b);
    NotEmptyId(h, s, id);
    if s.news[b][p] == id {
      CellLostPlaces(h, s, {}, b, p);
      CellLostFrom(h, s.news, b, p, id, a);
      PlaceOfEntry(h, s, id);
    }
  }

  /** Once every bucket has been passed, or no reference is left, the entry is in no cell. */
  lemma LeavingEnds(h: Hasher, s0: Book, s: Book, id: int, start: nat, n: nat)
    requires Leaving(h, s0, s, id, start, n) && LeavingPlaces(h, s0, s, id)
    requires n == NEW_BUCKETS || s.infos[id].refCount == 0
    ensures id in s0.infos && id in s.infos && Shaped(s0.news, NEW_BUCKETS) && Shaped(s.news, NEW_BUCKETS)
    ensures BookOk(h, s, {id}, {}) && s == s0.(infos := WithRefCount(s0.infos, id, 0), news := s.news)
    ensures BookPlaces(h, s) == BookPlaces(h, s0)[s0.infos[id].addr := Known(s0.infos[id].source, New({}))]
  {
    hide Indexed, Shuffled, TriedOk, NewOk, Counted, BookPlaces;
    RefCountIsBuckets(h, s, id);
    var bs := Buckets(h, s.news, id, s.infos[id].addr);
    if n == NEW_BUCKETS {
      forall b: nat | b < NEW_BUCKETS ensures b !in bs {
        var m := (b + NEW_BUCKETS - start % NEW_BUCKETS) % NEW_BUCKETS;
        assert Nth(start, m) == b;
      }
      assert bs == {};
    }
  }

  lemma RefCountIsBuckets(h: Hasher, s: Book, id: int)
    requires Shaped(s.news, NEW_BUCKETS) && id in s.infos && exists loose :: NewOk(h, s.infos, s.news, loose)
    ensures s.infos[id].refCount == |Buckets(h, s.news, id, s.infos[id].addr)|
  {
  }

  // ---------------------------------------------------------------- the tried slot

  /** Who is evicted when an address takes its tried slot. */
  function EvicteeOf(h: Hasher, s: Book, a: Service): Option<Service>
    requires Shaped(s.tried, TRIED_BUCKETS)
  {
    var cell := TriedCell(h, s.tried, a);
    if cell in s.infos then Some(s.infos[cell].addr) else None
  }

  lemma EvicteeIsRight(h: Hasher, s: Book, a: Service)
    requires Indexed(s.infos, s.addrs, s.idCount) && TriedOk(h, s.infos, s.tried) && Shaped(s.news, NEW_BUCKETS)
    ensures Evictee(h, BookPlaces(h, s), a, EvicteeOf(h, s, a))
    ensures EvicteeOf(h, s, a).None? <==> TriedCell(h, s.tried, a) == EMPTY
  {
    var cell := TriedCell(h, s.tried, a);
    if cell != EMPTY {
      assert TriedCellOk(h, s.infos, h.TriedBucket(a), h.TriedPos(a), cell);
      PlaceOfEntry(h, s, cell);
    }
    forall x | Occupies(h, BookPlaces(h, s), x, a) ensures cell == s.addrs[x] {
      assert TriedCell(h, s.tried, x) == cell;
    }
  }

  lemma NewClearedStats(h: Hasher, s: Book, loose: set<int>, un: set<int>, b: nat, p: nat)
    requires BookOk(h, s, loose, un) && Shaped(s.news, NEW_BUCKETS) && b < NEW_BUCKETS && p < BUCKET_SIZE
    ensures CellClearable(s, b, p) && StatsKept(s.infos, NewCleared(h, s, b, p).infos, {})
  {
    hide Indexed, Shuffled, TriedOk, NewOk, Counted;
    NewClearedOk(h, s, loose, un, b, p);
  }

  /** Eviction, seen as a whole. */
  lemma EvictionPlaces(h: Hasher, s1: Book, e: Service, id: int, loose: set<int>, un: set<int>)
    requires BookOk(h, s1, loose, un) && Shaped(s1.news, NEW_BUCKETS)
    requires id in loose && id in s1.infos && s1.infos[id].addr == e
    ensures var b := h.NewBucket(e, s1.infos[id].source);
            var p := h.NewPos(e, b);
            && CellClearable(s1, b, p)
            && var s2 := NewCleared(h, s1, b, p);
            && id in s2.infos && SameStats(s1.infos[id], s2.infos[id]) && MayGain(h, s2, b, p, id) && EMPTY !in s2.infos
            && BookPlaces(h, NewEntered(h, s2, b, p, id)) ==
               Cleared(h, BookPlaces(h, s1), b, p)[e := Known(s1.infos[id].source, New({b}))]
  {
    hide Indexed, Shuffled, TriedOk, NewOk, Counted, Cleared;
    var b := h.NewBucket(e, s1.infos[id].source);
    var p := h.NewPos(e, b);
    NewClearedOk(h, s1, loose, un, b, p);
    NewClearedStats(h, s1, loose, un, b, p);
    NewClearedPlaces(h, s1, loose, un, b, p);
    var s2 := NewCleared(h, s1, b, p);
    LooseEntry(h, s2.infos, s2.news, loose, id);
    NotEmptyId(h, s2, id);
    CellGainedPlaces(h, s2, b, p, id);
    CellGainedKnown(h, s2, b, p, id);
    PlaceOfEntry(h, s2, id);
    assert {} + {b} == {b};
    assert BookPlaces(h, NewEntered(h, s2, b, p, id)) == BookPlaces(h, CellGained(s2, b, p, id));
  }

  lemma EvictionOk(h: Hasher, s1: Book, e: Service, id: int, loose: set<int>, un: set<int>)
    requires BookOk(h, s1, loose, un) && Shaped(s1.news, NEW_BUCKETS) && Shaped(s1.tried, TRIED_BUCKETS)
    requires id in un && id in s1.infos && s1.infos[id].addr == e
    ensures var b := h.NewBucket(e, s1.infos[id].source);
            var p := h.NewPos(e, b);
            && CellClearable(s1, b, p)
            && (s1.news[b][p] != EMPTY ==> !s1.infos[s1.news[b][p]].inTried && s1.infos[s1.news[b][p]].refCount > 0)
            && var s2 := NewCleared(h, s1, b, p);
            && b < |s2.news| && p < |s2.news[b]| && s2.news[b][p] == EMPTY && id in s2.infos
            && s2.infos[id].refCount == 0
            && var s3 := NewEntered(h, s2, b, p, id);
            && BookOk(h, s3, loose - {id}, un - {id}) && Shaped(s3.news, NEW_BUCKETS)
            && s3.tried == s1.tried && s3.idCount == s1.idCount && StatsKept(s1.infos, s3.infos, {})
  {
    hide Indexed, Shuffled, TriedOk, NewOk, Counted;
    var b := h.NewBucket(e, s1.infos[id].source);
    var p := h.NewPos(e, b);
    EvictionPlaces(h, s1, e, id, loose, un);
    NewClearedOk(h, s1, loose, un, b, p);
    NewClearedStats(h, s1, loose, un, b, p);
    var s2 := NewCleared(h, s1, b, p);
    LooseEntry(h, s2.infos, s2.news, loose, id);
    NewEnteredOk(h, s2, loose, un, b, p, id);
  }

  lemma UncountedPlaces(h: Hasher, s: Book, id: int)
    requires id in s.infos && Shaped(s.news, NEW_BUCKETS)
    ensures BookPlaces(h, Uncounted(h, s, id)) == BookPlaces(h, s)
  {
  }

  /** The last step of MakeTried, from a state in which only this entry is loose. */
  lemma TriedEnteredDone(h: Hasher, s: Book, id: int)
    requires BookOk(h, s, {id}, {id}) && Shaped(s.tried, TRIED_BUCKETS) && Shaped(s.news, NEW_BUCKETS)
    ensures id in s.infos
    ensures TriedCell(h, s.tried, s.infos[id].addr) == EMPTY ==> BookOk(h, TriedEntered(h, s, id), {}, {})
    ensures s.infos[id].addr in BookPlaces(h, s)
    ensures BookPlaces(h, TriedEntered(h, s, id)) ==
            BookPlaces(h, s)[s.infos[id].addr := Known(s.infos[id].source, Tried)]
  {
    hide Indexed, Shuffled, TriedOk, NewOk, Counted, BookPlaces;
    LooseEntry(h, s.infos, s.news, {id}, id);
    TriedEnteredPlaces(h, s, id);
    if TriedCell(h, s.tried, s.infos[id].addr) == EMPTY {
      TriedEnteredOk(h, s, {id}, {id}, id);
      assert {id} - {id} == {};
    }
  }

  lemma MayMove(h: Hasher, s: Book, a: Service, id: int)
    requires BookOk(h, s, {}, {}) && Shaped(s.tried, TRIED_BUCKETS) && Shaped(s.news, NEW_BUCKETS)
    requires id in s.infos && s.infos[id].addr == a && !s.infos[id].inTried
    ensures Evictee(h, BookPlaces(h, s), a, EvicteeOf(h, s, a))
    ensures EvicteeOf(h, s, a).None? <==> TriedCell(h, s.tried, a) == EMPTY
    ensures a in BookPlaces(h, s) && BookPlaces(h, s)[a].source == s.infos[id].source
    ensures EvicteeOf(h, s, a).Some? ==> EvicteeOf(h, s, a).value in BookPlaces(h, s) && EvicteeOf(h, s, a).value != a
    ensures id != EMPTY
  {
    hide Indexed, Shuffled, TriedOk, NewOk, Counted, BookPlaces;
    NotEmptyId(h, s, id);
    EvicteeIsRight(h, s, a);
    PlaceOfEntry(h, s, id);
  }

  // ---------------------------------------------------------------- AddSingle

  /** Fields that no structure depends on may change. */
  ghost predicate Touched(infos: Infos, infos': Infos) {
    SamePlaces(infos, infos') && forall id :: id in infos ==> infos'[id].randomPos == infos[id].randomPos
  }

  lemma TouchedShuffled(infos: Infos, infos': Infos, random: seq<int>)
    requires Shuffled(infos, random) && Touched(infos, infos')
    ensures Shuffled(infos', random)
  {
    forall i | 0 <= i < |random| ensures random[i] in infos' && infos'[random[i]].randomPos == i {
      var id := random[i];
      assert id in infos && infos[id].randomPos == i;
      assert infos'[id].randomPos == infos[id].randomPos;
    }
  }

  lemma TouchedOk(h: Hasher, s: Book, infos': Infos, loose: set<int>, un: set<int>)
    requires BookOk(h, s, loose, un) && Shaped(s.news, NEW_BUCKETS) && Touched(s.infos, infos')
    ensures BookOk(h, s.(infos := infos'), loose, un)
    ensures BookPlaces(h, s.(infos := infos')) == BookPlaces(h, s)
  {
    hide Indexed, Shuffled, TriedOk, NewOk, Counted;
    SamePlacesKeep(h, s.infos, infos', s.addrs, s.idCount, s.tried, s.news, loose);
    TouchedShuffled(s.infos, infos', s.random);
    SamePlacesCounted(h, s.infos, infos', un, s.nNew, s.nTried, s.counts);
    SamePlacesAreTheSame(h, s.infos, infos', s.addrs, s.news);
  }

  /** Clearing a cell does not touch the other entries. */
  lemma NewClearedOthers(h: Hasher, s: Book, loose: set<int>, un: set<int>, b: nat, p: nat, id: int)
    requires BookOk(h, s, loose, un) && Shaped(s.news, NEW_BUCKETS) && b < NEW_BUCKETS && p < BUCKET_SIZE
    requires id in s.infos && id != s.news[b][p]
    ensures CellClearable(s, b, p)
    ensures var infos' := NewCleared(h, s, b, p).infos;
            id in infos' && infos'[id] == s.infos[id].(randomPos := infos'[id].randomPos)
  {
    hide Indexed, Shuffled, TriedOk, NewOk, Counted;
    NewClearedOk(h, s, loose, un, b, p);
  }

  /** An entry takes a cell of new that it does not hold yet. */
  ghost function Inserted(h: Hasher, s: Book, b: nat, p: nat, id: int): Book
    requires CellClearable(s, b, p) && b < |NewCleared(h, s, b, p).news| && p < |NewCleared(h, s, b, p).news[b]|
    requires id in NewCleared(h, s, b, p).infos
  {
    CellGained(NewCleared(h, s, b, p), b, p, id)
  }

  ghost predicate MayInsert(h: Hasher, s: Book, b: nat, p: nat, id: int) {
    && Shaped(s.news, NEW_BUCKETS) && b < NEW_BUCKETS && p < BUCKET_SIZE && s.news[b][p] != id
    && id in s.infos && !s.infos[id].inTried && h.NewPos(s.infos[id].addr, b) == p
    && s.infos[id].refCount < NEW_BUCKETS_PER_ADDRESS
  }

  lemma InsertedOk(h: Hasher, s: Book, loose: set<int>, b: nat, p: nat, id: int)
    requires BookOk(h, s, loose, {}) && MayInsert(h, s, b, p, id) && loose <= {id}
    ensures CellClearable(s, b, p)
    ensures s.news[b][p] != EMPTY ==> !s.infos[s.news[b][p]].inTried && s.infos[s.news[b][p]].refCount > 0
    ensures var s1 := NewCleared(h, s, b, p);
            && b < |s1.news| && p < |s1.news[b]| && s1.news[b][p] == EMPTY && id in s1.infos
            && s1.infos[id].refCount == s.infos[id].refCount
    ensures var s2 := Inserted(h, s, b, p, id);
            && BookOk(h, s2, {}, {}) && Shaped(s2.news, NEW_BUCKETS)
            && s2.tried == s.tried && s2.idCount == s.idCount && StatsKept(s.infos, s2.infos, {})
            && id in s2.infos
  {
    hide Indexed, Shuffled, TriedOk, NewOk, Counted;
    NewClearedOk(h, s, loose, {}, b, p);
    NewClearedOthers(h, s, loose, {}, b, p, id);
    NewClearedStats(h, s, loose, {}, b, p);
    CellGainedOk(h, NewCleared(h, s, b, p), loose, {}, b, p, id);
    assert loose - {id} == {};
  }

  lemma InsertedPlaces(h: Hasher, s: Book, loose: set<int>, b: nat, p: nat, id: int)
    requires BookOk(h, s, loose, {}) && MayInsert(h, s, b, p, id) && loose <= {id}
    ensures CellClearable(s, b, p) && Shaped(NewCleared(h, s, b, p).news, NEW_BUCKETS)
    ensures id in NewCleared(h, s, b, p).infos
    ensures var a, cleared := s.infos[id].addr, Cleared(h, BookPlaces(h, s), b, p);
            && a in cleared && cleared[a].place.New? && Shaped(Inserted(h, s, b, p, id).news, NEW_BUCKETS)
            && BookPlaces(h, Inserted(h, s, b, p, id)) == Filled(cleared, a, b)
  {
    hide Indexed, Shuffled, TriedOk, NewOk, Counted, BookPlaces, Cleared;
    NewClearedOk(h, s, loose, {}, b, p);
    NewClearedOthers(h, s, loose, {}, b, p, id);
    NewClearedPlaces(h, s, loose, {}, b, p);
    var s1 := NewCleared(h, s, b, p);
    NotEmptyId(h, s1, id);
    CellGainedPlaces(h, s1, b, p, id);
  }

  lemma DeletedStats(h: Hasher, s: Book, loose: set<int>, un: set<int>, id: int)
    requires BookOk(h, s, loose, un) && id in loose && id !in un && Shaped(s.news, NEW_BUCKETS)
    ensures Deletable(s, id) && StatsKept(s.infos, Deleted(h, s, id).infos, {})
    ensures Deleted(h, s, id).news == s.news && Deleted(h, s, id).tried == s.tried
    ensures Deleted(h, s, id).idCount == s.idCount
    ensures id in s.infos && BookPlaces(h, Deleted(h, s, id)) == BookPlaces(h, s) - {s.infos[id].addr}
    ensures id in s.infos && !s.infos[id].inTried && s.infos[id].refCount == 0
  {
    hide Indexed, Shuffled, TriedOk, NewOk, Counted, BookPlaces;
    LooseEntry(h, s.infos, s.news, loose, id);
    DeletedOk(h, s, loose, un, id);
    DeletedPlaces(h, s, id);
  }

  /** In a consistent state the holder of a cell exists. */
  lemma CellHolder(h: Hasher, s: Book, loose: set<int>, un: set<int>, b: nat, p: nat)
    requires BookOk(h, s, loose, un) && Shaped(s.news, NEW_BUCKETS) && b < NEW_BUCKETS && p < BUCKET_SIZE
    requires s.news[b][p] != EMPTY
    ensures s.news[b][p] in s.infos
  {
    assert NewCellOk(h, s.infos, b, p, s.news[b][p]);
  }

  lemma NotEmptyEntry(h: Hasher, s: Book, loose: set<int>, un: set<int>, id: int)
    requires BookOk(h, s, loose, un) && id in s.infos
    ensures id != EMPTY
  {
  }

  /** An entry that holds a cell has a reference. */
  lemma HeldCell(h: Hasher, s: Book, loose: set<int>, b: nat, p: nat)
    requires BookOk(h, s, loose, {}) && Shaped(s.news, NEW_BUCKETS) && b < NEW_BUCKETS && p < BUCKET_SIZE
    requires s.news[b][p] != EMPTY
    ensures s.news[b][p] in s.infos && s.infos[s.news[b][p]].refCount >= 1
  {
    hide Indexed, Shuffled, TriedOk, NewOk, Counted;
    ClearCellKeeps(h, s.infos, s.news, loose, b, p);
  }

  // ---------------------------------------------------------------- AddSingle

  /** Addresses name entries. */
  lemma OneEntry(h: Hasher, s: Book, loose: set<int>, un: set<int>, i: int, j: int)
    requires BookOk(h, s, loose, un) && i in s.infos && j in s.infos
    ensures s.infos[i].addr in s.addrs && s.addrs[s.infos[i].addr] == i
    ensures (s.infos[i].addr == s.infos[j].addr <==> i == j)
  {
    hide Shuffled, TriedOk, NewOk, Counted;
  }

  /** A known address that is not tried has between one and eight references. */
  lemma References(h: Hasher, s: Book, id: int)
    requires BookOk(h, s, {}, {}) && id in s.infos && !s.infos[id].inTried
    ensures 1 <= s.infos[id].refCount <= NEW_BUCKETS_PER_ADDRESS
  {
    hide Shuffled, TriedOk, Indexed, Counted;
  }

  /** A created entry, its time reduced by the penalty. */
  lemma AnnouncedOk(h: Hasher, s: Book, addr: Address, source: int, time: int)
    requires BookOk(h, s, {}, {}) && addr.service !in s.addrs
    ensures var s1, id := Created(h, s, addr, source), s.idCount;
            var s2 := s1.(infos := s1.infos[id := s1.infos[id].(time := time)]);
            && id !in s.infos && BookOk(h, s2, {id}, {}) && Shaped(s.news, NEW_BUCKETS)
            && addr.service !in BookPlaces(h, s)
            && BookPlaces(h, s2) == BookPlaces(h, s)[addr.service := Known(source, New({}))]
  {
    hide Indexed, Shuffled, TriedOk, NewOk, Counted, BookPlaces;
    UnusedId(h, s, addr.service);
    CreatedOk(h, s, {}, {}, addr, source);
    CreatedPlaces(h, s, {}, addr, source);
    var s1, id := Created(h, s, addr, source), s.idCount;
    assert {} + {id} == {id};
    TouchedOk(h, s1, s1.infos[id := s1.infos[id].(time := time)], {id}, {});
  }

  lemma UnusedId(h: Hasher, s: Book, a: Service)
    requires BookOk(h, s, {}, {}) && a !in s.addrs
    ensures s.idCount !in s.infos && s.idCount != EMPTY && Shaped(s.news, NEW_BUCKETS) && a !in BookPlaces(h, s)
  {
  }

  // ---------------------------------------------------------------- what a run never undoes

  /** Ids are never reused and keep their address, and an occupied tried slot stays occupied. */
  ghost predicate Onward(s: Book, s': Book) {
    && s.idCount <= s'.idCount
    && (forall id :: id in s'.infos && id < s.idCount ==> id in s.infos && s'.infos[id].addr == s.infos[id].addr)
    && Shaped(s.tried, TRIED_BUCKETS) && Shaped(s'.tried, TRIED_BUCKETS)
    && (forall b: nat, p: nat ::
          b < TRIED_BUCKETS && p < BUCKET_SIZE && s.tried[b][p] != EMPTY ==> s'.tried[b][p] != EMPTY)
  }

  lemma OnwardTransitively(s: Book, s1: Book, s2: Book)
    requires Onward(s, s1) && Onward(s1, s2)
    ensures Onward(s, s2)
  {
    forall b: nat, p: nat | b < TRIED_BUCKETS && p < BUCKET_SIZE && s.tried[b][p] != EMPTY
      ensures s2.tried[b][p] != EMPTY
    {
      assert s1.tried[b][p] != EMPTY;
    }
  }

  /** A colliding entry that still exists collides with an occupied slot. */
  ghost predicate Colliding(h: Hasher, s: Book, collisions: set<int>) {
    && |collisions| <= SET_TRIED_COLLISION_SIZE
    && Shaped(s.tried, TRIED_BUCKETS)
    && forall id :: id in collisions ==>
         0 <= id < s.idCount && (id in s.infos ==> TriedCell(h, s.tried, s.infos[id].addr) != EMPTY)
  }

  lemma CollidingOnward(h: Hasher, s: Book, s': Book, collisions: set<int>)
    requires Colliding(h, s, collisions) && Onward(s, s')
    ensures Colliding(h, s', collisions)
  {
  }

  lemma FewerColliding(h: Hasher, s: Book, collisions: set<int>, id: int)
    requires Colliding(h, s, collisions) && id in collisions
    ensures Colliding(h, s, collisions - {id})
  {
  }

  /** Only one entry is changed or created, then only bookkeeping fields are. */
  lemma ChangedThenKept(s: Book, id: int, info: AddrInfo, s2: Book)
    requires Shaped(s.tried, TRIED_BUCKETS) && s2.tried == s.tried && s2.idCount >= s.idCount
    requires StatsKept(s.infos[id := info], s2.infos, {})
    requires if id in s.infos then info.addr == s.infos[id].addr else id >= s.idCount
    ensures Onward(s, s2)
    ensures TimesOk(s.infos) && info.lastTry >= 0 && info.lastSuccess >= 0 && (info.inTried ==> info.lastSuccess != 0)
            ==> TimesOk(s2.infos)
  {
    if TimesOk(s.infos) && info.lastTry >= 0 && info.lastSuccess >= 0 && (info.inTried ==> info.lastSuccess != 0) {
      StatsKeptTimes(s.infos[id := info], s2.infos, {});
    }
  }

  lemma StandingStill(h: Hasher, s: Book)
    requires Shaped(s.tried, TRIED_BUCKETS)
    ensures Onward(s, s)
  {
  }

  lemma NewcomerKept(infos: Infos, id: int, addr: Address, source: int, penalty: int, info: AddrInfo, infos': Infos)
    requires StatsKept(infos[id := info], infos', {})
    requires info == FreshInfo(addr, source, info.randomPos).(time := Max(0, addr.time - penalty))
    ensures StatsKept(infos[id := Newcomer(addr, source, penalty)], infos', {})
  {
    forall j | j in infos' ensures SameStats(infos[id := Newcomer(addr, source, penalty)][j], infos'[j]) {
      assert SameStats(infos[id := info][j], infos'[j]);
    }
  }

  /** An entry whose address is still known is still there. */
  lemma EntryStays(h: Hasher, s: Book, s': Book, loose: set<int>, id: int)
    requires BookOk(h, s, loose, {}) && BookOk(h, s', {}, {}) && Shaped(s'.news, NEW_BUCKETS) && id in s.infos
    requires StatsKept(s.infos, s'.infos, {}) && s.infos[id].addr in BookPlaces(h, s')
    ensures id in s'.infos
  {
    hide Shuffled, TriedOk, NewOk, Counted;
    var a := s.infos[id].addr;
    var j := s'.addrs[a];
    assert SameStats(s.infos[j], s'.infos[j]);
  }

  lemma NothingKept(infos: Infos)
    ensures StatsKept(infos, infos, {})
  {
  }

  lemma KeptTimes(infos: Infos, id: int)
    requires id in infos
    ensures TimesOk(infos) ==>
              infos[id].lastTry >= 0 && infos[id].lastSuccess >= 0 && (infos[id].inTried ==> infos[id].lastSuccess != 0)
  {
  }

  /** A success at the epoch itself is not consistent with being tried, one before it never is. */
  lemma SuccessTimes(infos: Infos, id: int, time: int)
    requires id in infos && TimesOk(infos)
    ensures TimesOk(infos[id := infos[id].(lastSuccess := time, lastTry := time, attempts := 0)]) <==>
            time > 0 || (time == 0 && !infos[id].inTried)
  {
    var infos' := infos[id := infos[id].(lastSuccess := time, lastTry := time, attempts := 0)];
    assert infos'[id].lastTry == time;
  }

  lemma PromotedTimes(infos: Infos, infos1: Infos, infos': Infos, id: int, time: int)
    requires id in infos && infos1 == infos[id := infos[id].(lastSuccess := time, lastTry := time, attempts := 0)]
    requires StatsKept(infos1, infos', {id}) && id in infos' && infos'[id].inTried && TimesOk(infos)
    ensures TimesOk(infos') <==> time > 0
  {
    assert SameStats(infos1[id], infos'[id]);
    if time > 0 {
      forall j | j in infos' ensures j in infos1 && SameStats(infos1[j], infos'[j]) {
      }
    }
  }

  lemma TouchedOne(infos: Infos, id: int, info: AddrInfo)
    requires id in infos && info.addr == infos[id].addr && info.source == infos[id].source
    requires info.refCount == infos[id].refCount && info.inTried == infos[id].inTried
    requires info.randomPos == infos[id].randomPos
    ensures Touched(infos, infos[id := info])
  {
  }

  // ---------------------------------------------------------------- Good_ and the collisions

  /** What the places say of a known address agrees with its entry. */
  lemma EntryAndPlace(h: Hasher, s: Book, id: int)
    requires BookOk(h, s, {}, {}) && Shaped(s.news, NEW_BUCKETS) && id in s.infos
    ensures var a := s.infos[id].addr;
            a in BookPlaces(h, s) && (s.infos[id].inTried <==> BookPlaces(h, s)[a].place.Tried?)
  {
    hide Shuffled, TriedOk, NewOk, Counted;
    PlaceOfEntry(h, s, id);
  }

  /** An occupied tried slot is held by the entry of a tried address that belongs there. */
  lemma Occupant(h: Hasher, s: Book, a: Service)
    requires BookOk(h, s, {}, {}) && Shaped(s.tried, TRIED_BUCKETS) && Shaped(s.news, NEW_BUCKETS)
    requires TriedCell(h, s.tried, a) != EMPTY
    ensures TriedCell(h, s.tried, a) in s.infos
    ensures Occupies(h, BookPlaces(h, s), s.infos[TriedCell(h, s.tried, a)].addr, a)
  {
    hide Shuffled, NewOk, Counted;
    var cell := TriedCell(h, s.tried, a);
    assert TriedCellOk(h, s.infos, h.TriedBucket(a), h.TriedPos(a), cell);
    PlaceOfEntry(h, s, cell);
  }

  lemma CollisionAdded(h: Hasher, s: Book, collisions: set<int>, id: int)
    requires BookOk(h, s, {}, {}) && Colliding(h, s, collisions)
    requires id in s.infos && TriedCell(h, s.tried, s.infos[id].addr) != EMPTY
    requires |collisions| < SET_TRIED_COLLISION_SIZE
    ensures Colliding(h, s, collisions + {id})
  {
    hide Shuffled, TriedOk, NewOk, Counted;
  }

  /** A live collision has an occupant. */
  lemma LiveCollision(h: Hasher, s: Book, collisions: set<int>, id: int)
    requires BookOk(h, s, {}, {}) && Colliding(h, s, collisions)
    requires Shaped(s.tried, TRIED_BUCKETS) && Shaped(s.news, NEW_BUCKETS)
    requires id in collisions && id in s.infos
    ensures var a := s.infos[id].addr;
            var cell := TriedCell(h, s.tried, a);
            && cell != EMPTY && cell in s.infos && Occupies(h, BookPlaces(h, s), s.infos[cell].addr, a)
            && a in BookPlaces(h, s) && (s.infos[id].inTried <==> BookPlaces(h, s)[a].place.Tried?)
  {
    hide Indexed, Shuffled, TriedOk, NewOk, Counted, BookPlaces, Occupies;
    Occupant(h, s, s.infos[id].addr);
    EntryAndPlace(h, s, id);
  }

  /** Nobody but the entry in the slot is tried and belongs there. */
  lemma OneOccupant(h: Hasher, s: Book, a: Service, x: Service)
    requires BookOk(h, s, {}, {}) && Shaped(s.tried, TRIED_BUCKETS) && Shaped(s.news, NEW_BUCKETS)
    requires Occupies(h, BookPlaces(h, s), x, a)
    ensures TriedCell(h, s.tried, a) in s.infos && s.infos[TriedCell(h, s.tried, a)].addr == x
  {
    hide Shuffled, NewOk, Counted;
    PlaceOfEntry(h, s, s.addrs[x]);
  }

  lemma OccupantIsKnown(h: Hasher, s: Book, a: Service)
    requires BookOk(h, s, {}, {}) && Shaped(s.tried, TRIED_BUCKETS) && Shaped(s.news, NEW_BUCKETS)
    requires TriedCell(h, s.tried, a) in s.infos
    ensures s.infos[TriedCell(h, s.tried, a)].addr in BookPlaces(h, s)
  {
    EntryAndPlace(h, s, TriedCell(h, s.tried, a));
  }

  lemma ResolvedWho(h: Hasher, s0: Book, s: Book, id: int, now: int, erase: bool, s': Book)
    requires Shaped(s0.news, NEW_BUCKETS) && Shaped(s.news, NEW_BUCKETS)
    requires Joined(h, BookPlaces(h, s0), BookPlaces(h, s))
    requires ResolvedOne(h, s, id, now, erase, s')
    ensures Joined(h, BookPlaces(h, s0), BookPlaces(h, s'))
  {
    hide BookPlaces, MovedToTried, SucceededAt, Decides, MustWait, Joined;
    NobodyJoined(h, BookPlaces(h, s));
    if s' != s && !s.infos[id].inTried {
      MovedJoined(h, BookPlaces(h, s), s.infos[id].addr, Some(s.infos[TriedCell(h, s.tried, s.infos[id].addr)].addr));
    }
    JoinedTransitively(h, BookPlaces(h, s0), BookPlaces(h, s), BookPlaces(h, s'));
  }

  /** What the decision on one collision comes to. */
  ghost predicate ResolvedOne(h: Hasher, s: Book, id: int, now: int, erase: bool, s': Book) {
    && Shaped(s.tried, TRIED_BUCKETS) && Shaped(s.news, NEW_BUCKETS) && Shaped(s'.news, NEW_BUCKETS)
    && if !(id in s.infos && h.valid(s.infos[id].addr)) then erase && s' == s
       else
         var a := s.infos[id].addr;
         var cell := TriedCell(h, s.tried, a);
         && cell in s.infos && a in BookPlaces(h, s) && s.infos[cell].addr in BookPlaces(h, s)
         && (!erase <==> MustWait(s.infos[id], s.infos[cell], now))
         && if !Decides(s.infos[id], s.infos[cell], now) then s' == s
            else
              && SucceededAt(s.infos, s'.infos, id, now)
              && BookPlaces(h, s') == if s.infos[id].inTried then BookPlaces(h, s)
                                      else MovedToTried(h, BookPlaces(h, s), a, Some(s.infos[cell].addr))
  }

  /** A collision is never decided before the epoch. */
  lemma DecidedAfterTheEpoch(s: Book, info: AddrInfo, cell: int, now: int)
    requires TimesOk(s.infos) && cell in s.infos && Decides(info, s.infos[cell], now)
    ensures now > 0
  {
  }

  // ---------------------------------------------------------------- AddSingle and Add_

  /** Whether an announcement asks for a cell of new. */
  predicate Wants(h: Hasher, s: Book, addr: Address, penalty: int, now: int, lucky: bool) {
    && h.Routable(addr.service)
    && (addr.service in s.addrs && s.addrs[addr.service] in s.infos ==>
          var info := s.infos[s.addrs[addr.service]];
          && addr.time > RefreshedTime(info.time, addr, penalty, now)
          && !info.inTried && info.refCount != NEW_BUCKETS_PER_ADDRESS
          && (info.refCount > 0 ==> lucky))
  }

  /** Whether it gets the cell: nobody is there, or somebody else who is terrible, or somebody
      with other references while the address has none. */
  predicate Gets(s: Book, a: Service, bucket: nat, pos: nat, now: int)
    requires bucket < |s.news| && pos < |s.news[bucket]|
  {
    var cell := s.news[bucket][pos];
    || cell == EMPTY
    || (cell in s.infos && s.infos[cell].addr != a &&
        (IsTerrible(s.infos[cell], now) || (s.infos[cell].refCount > 1 && a !in s.addrs)))
  }

  /** What one announcement comes to: where addresses are, and what is known of them. */
  ghost predicate AddedOne(h: Hasher, s: Book, addr: Address, source: int, timePenalty: int, now: int, lucky: bool,
                           inserted: bool, s': Book)
  {
    var a, penalty := addr.service, if addr.service.ip == source then 0 else timePenalty;
    var bucket := h.NewBucket(a, source);
    var pos := h.NewPos(a, bucket);
    && Shaped(s.news, NEW_BUCKETS) && Shaped(s'.news, NEW_BUCKETS) && s'.tried == s.tried
    && (inserted <==> Wants(h, s, addr, penalty, now, lucky) && Gets(s, a, bucket, pos, now))
    && (var cleared := Cleared(h, Announced(BookPlaces(h, s), a, source), bucket, pos);
        if inserted then a in cleared && cleared[a].place.New? && BookPlaces(h, s') == Filled(cleared, a, bucket)
        else BookPlaces(h, s') == BookPlaces(h, s))
    && if !h.Routable(a) then s' == s
       else if a in s.addrs then
         s.addrs[a] in s.infos && s.addrs[a] in s'.infos &&
         StatsKept(s.infos[s.addrs[a] := Refreshed(s.infos[s.addrs[a]], addr, penalty, now)], s'.infos, {})
       else
         (inserted ==> s.idCount in s'.infos) &&
         StatsKept(s.infos[s.idCount := Newcomer(addr, source, penalty)], s'.infos, {})
  }

  lemma AddedWho(h: Hasher, s0: Book, s: Book, addr: Address, source: int, timePenalty: int, now: int, lucky: bool,
                 inserted: bool, s': Book)
    requires Shaped(s0.news, NEW_BUCKETS) && Shaped(s.news, NEW_BUCKETS)
    requires Joined(h, BookPlaces(h, s0), BookPlaces(h, s))
    requires AddedOne(h, s, addr, source, timePenalty, now, lucky, inserted, s')
    ensures Joined(h, BookPlaces(h, s0), BookPlaces(h, s')) && (!inserted ==> BookPlaces(h, s') == BookPlaces(h, s))
  {
    hide BookPlaces, Joined, Gets, Cleared, Announced, Filled, StatsKept, Refreshed, Newcomer, RefreshedTime;
    NobodyJoined(h, BookPlaces(h, s));
    if inserted {
      var b := h.NewBucket(addr.service, source);
      AddedJoined(h, BookPlaces(h, s), addr.service, source, b, h.NewPos(addr.service, b));
    }
    JoinedTransitively(h, BookPlaces(h, s0), BookPlaces(h, s), BookPlaces(h, s'));
  }

  // ---------------------------------------------------------------- Select_ and GetAddr_

  /** An entry that a selection may return: in the chosen table, on the wanted network if any. */
  ghost predicate Selectable(h: Hasher, s: Book, tried: bool, network: Option<int>, id: int) {
    id in s.infos && s.infos[id].inTried == tried && (network.Some? ==> h.Network(s.infos[id].addr) == network.value)
  }

  function CountIn(s: Book, tried: bool, network: Option<int>): int {
    match network
    case None => if tried then s.nTried else s.nNew
    case Some(net) => if tried then CountOn(s.counts, net).nTried else CountOn(s.counts, net).nNew
  }

  /** The counters say whether there is anything to select. */
  lemma CountersTell(h: Hasher, s: Book, tried: bool, network: Option<int>)
    requires BookOk(h, s, {}, {})
    ensures CountIn(s, tried, network) >= 0
    ensures CountIn(s, tried, network) > 0 <==> exists id :: Selectable(h, s, tried, network, id)
  {
    hide Indexed, Shuffled, TriedOk, NewOk;
    var ids := if tried then TriedIds(s.infos) else NewIds(s.infos, {});
    var on := if network.Some? then On(h, s.infos, ids, network.value) else ids;
    forall id ensures id in on <==> Selectable(h, s, tried, network, id) {}
    assert CountIn(s, tried, network) == |on|;
    if on != {} {
      var id := SomeElement(on);
    }
  }

  function Cell(s: Book, tried: bool, b: nat, p: nat): int
    requires if tried then b < |s.tried| && p < |s.tried[b]| else b < |s.news| && p < |s.news[b]|
  {
    if tried then s.tried[b][p] else s.news[b][p]
  }

  /** Some bucket of the table holds an entry that may be selected. */
  ghost predicate Offers(h: Hasher, s: Book, tried: bool, network: Option<int>, b: nat)
    requires Shaped(s.tried, TRIED_BUCKETS) && Shaped(s.news, NEW_BUCKETS)
  {
    && b < (if tried then TRIED_BUCKETS else NEW_BUCKETS)
    && exists p: nat :: p < BUCKET_SIZE && Selectable(h, s, tried, network, Cell(s, tried, b, p))
  }

  /** Whatever may be selected is in a cell of the table. */
  lemma SelectableHasCell(h: Hasher, s: Book, tried: bool, network: Option<int>, id: int) returns (b: nat)
    requires BookOk(h, s, {}, {}) && Shaped(s.tried, TRIED_BUCKETS) && Shaped(s.news, NEW_BUCKETS)
    requires Selectable(h, s, tried, network, id)
    ensures Offers(h, s, tried, network, b)
  {
    hide Indexed, Shuffled, Counted;
    var a := s.infos[id].addr;
    if tried {
      b := h.TriedBucket(a);
      assert Cell(s, tried, b, h.TriedPos(a)) == id;
    } else {
      var bs := Buckets(h, s.news, id, a);
      assert |bs| >= 1;
      b := SomeElement(bs);
      assert Cell(s, tried, b, h.NewPos(a, b)) == id;
    }
  }

  lemma SomeBucketOffers(h: Hasher, s: Book, tried: bool, network: Option<int>)
    requires BookOk(h, s, {}, {}) && Shaped(s.tried, TRIED_BUCKETS) && Shaped(s.news, NEW_BUCKETS)
    ensures (exists id :: Selectable(h, s, tried, network, id)) ==> exists b: nat :: Offers(h, s, tried, network, b)
  {
    hide BookOk, Selectable, Offers;
    forall id | Selectable(h, s, tried, network, id) ensures exists b: nat :: Offers(h, s, tried, network, b) {
      var b := SelectableHasCell(h, s, tried, network, id);
    }
  }

  /** Whatever is in a cell of the table may be selected, network aside. */
  lemma CellIsSelectable(h: Hasher, s: Book, tried: bool, b: nat, p: nat)
    requires BookOk(h, s, {}, {}) && Shaped(s.tried, TRIED_BUCKETS) && Shaped(s.news, NEW_BUCKETS)
    requires b < (if tried then TRIED_BUCKETS else NEW_BUCKETS) && p < BUCKET_SIZE && Cell(s, tried, b, p) != EMPTY
    ensures Selectable(h, s, tried, None, Cell(s, tried, b, p))
  {
    hide Indexed, Shuffled, Counted;
    if tried {
      assert TriedCellOk(h, s.infos, b, p, s.tried[b][p]);
    } else {
      assert NewCellOk(h, s.infos, b, p, s.news[b][p]);
    }
  }

  /** What GetAddr_ filters by: a network, and quality if asked to. */
  datatype Filter = Filter(wanted: Service -> bool, quality: bool, now: int)

  predicate Keeps(f: Filter, info: AddrInfo) {
    f.wanted(info.addr) && (f.quality ==> !IsTerrible(info, f.now))
  }

  /** The addresses a filter keeps, in order. */
  function Kept(infos: Infos, ids: seq<int>, f: Filter): seq<Service> {
    if ids == [] then []
    else
      var (rest, last) := (Kept(infos, ids[..|ids| - 1], f), ids[|ids| - 1]);
      if last in infos && Keeps(f, infos[last]) then rest + [infos[last].addr] else rest
  }

  lemma KeptNext(infos: Infos, ids: seq<int>, n: nat, f: Filter)
    requires n < |ids| && ids[n] in infos
    ensures Kept(infos, ids[..n + 1], f) ==
            if Keeps(f, infos[ids[n]]) then Kept(infos, ids[..n], f) + [infos[ids[n]].addr]
            else Kept(infos, ids[..n], f)
  {
    assert ids[..n + 1][..n] == ids[..n];
  }

  lemma KeptNone(infos: Infos, ids: seq<int>, f: Filter)
    ensures Kept(infos, ids[..0], f) == []
  {
  }

  predicate SameButPosition(x: AddrInfo, y: AddrInfo) {
    y == x.(randomPos := y.randomPos)
  }

  ghost predicate SameButPositions(infos: Infos, infos': Infos) {
    infos'.Keys == infos.Keys && forall id :: id in infos ==> SameButPosition(infos[id], infos'[id])
  }

  lemma {:induction false} KeptAnywhere(infos: Infos, infos': Infos, ids: seq<int>, f: Filter)
    requires SameButPositions(infos, infos')
    requires forall i :: 0 <= i < |ids| ==> ids[i] in infos && ids[i] in infos'
    ensures Kept(infos', ids, f) == Kept(infos, ids, f)
  {
    if ids != [] {
      var n := |ids| - 1;
      KeptAnywhere(infos, infos', ids[..n], f);
      var id := ids[n];
      assert id in infos && id in infos';
      var x, x' := infos[id], infos'[id];
      assert SameButPosition(x, x');
      assert Keeps(f, x') == Keeps(f, x) && x'.addr == x.addr;
      assert Kept(infos', ids[..n], f) == Kept(infos, ids[..n], f);
    }
  }

  ghost predicate KeptOf(infos: Infos, ids: seq<int>, f: Filter, a: Service)
    requires forall i :: 0 <= i < |ids| ==> ids[i] in infos
  {
    exists i :: 0 <= i < |ids| && infos[ids[i]].addr == a && Keeps(f, infos[ids[i]])
  }

  /** The kept addresses are exactly those of the entries the filter accepts, each once. */
  lemma {:induction false} KeptIsTheFilter(infos: Infos, ids: seq<int>, f: Filter)
    requires forall i :: 0 <= i < |ids| ==> ids[i] in infos
    requires forall i, j :: 0 <= i < j < |ids| ==> infos[ids[i]].addr != infos[ids[j]].addr
    ensures forall a :: a in Kept(infos, ids, f) <==> KeptOf(infos, ids, f, a)
    ensures forall i, j :: 0 <= i < j < |Kept(infos, ids, f)| ==> Kept(infos, ids, f)[i] != Kept(infos, ids, f)[j]
  {
    if ids != [] {
      var n := |ids| - 1;
      KeptIsTheFilter(infos, ids[..n], f);
      forall a ensures KeptOf(infos, ids, f, a) <==>
                       KeptOf(infos, ids[..n], f, a) || (infos[ids[n]].addr == a && Keeps(f, infos[ids[n]]))
      {
        if KeptOf(infos, ids[..n], f, a) {
          var i :| 0 <= i < n && infos[ids[..n][i]].addr == a && Keeps(f, infos[ids[..n][i]]);
          assert ids[i] == ids[..n][i];
        }
        if KeptOf(infos, ids, f, a) {
          var i :| 0 <= i < |ids| && infos[ids[i]].addr == a && Keeps(f, infos[ids[i]]);
          assert i < n ==> ids[i] == ids[..n][i];
        }
      }
      assert !KeptOf(infos, ids[..n], f, infos[ids[n]].addr);
      var k, last := Kept(infos, ids[..n], f), infos[ids[n]];
      forall a ensures a in Kept(infos, ids, f) <==> a in k || (last.addr == a && Keeps(f, last)) {
        assert Kept(infos, ids, f) == if Keeps(f, last) then k + [last.addr] else k;
      }
    }
  }

  /** vRandom lists every entry once. */
  lemma RandomListsEntries(h: Hasher, s: Book)
    requires BookOk(h, s, {}, {})
    ensures forall i :: 0 <= i < |s.random| ==> s.random[i] in s.infos
    ensures forall i, j :: 0 <= i < j < |s.random| ==> s.infos[s.random[i]].addr != s.infos[s.random[j]].addr
    ensures forall a :: a in s.addrs <==> exists i :: 0 <= i < |s.random| && s.infos[s.random[i]].addr == a
  {
    hide TriedOk, NewOk, Counted;
    forall i | 0 <= i < |s.random| ensures s.random[i] in s.infos && s.infos[s.random[i]].addr in s.addrs {
      var id := s.random[i];
      assert id in s.infos;
    }
    forall a | a in s.addrs ensures exists i :: 0 <= i < |s.random| && s.infos[s.random[i]].addr == a {
      var id := s.addrs[a];
      assert s.random[s.infos[id].randomPos] == id;
    }
    forall i, j | 0 <= i < j < |s.random| ensures s.infos[s.random[i]].addr != s.infos[s.random[j]].addr {
      var x, y := s.random[i], s.random[j];
      assert s.infos[x].randomPos == i && s.infos[y].randomPos == j;
      assert s.addrs[s.infos[x].addr] == x && s.addrs[s.infos[y].addr] == y;
    }
  }

  /** A swap of positions, seen from the front of vRandom. */
  lemma SwapKeepsFront(h: Hasher, s: Book, n: nat, j: nat)
    requires BookOk(h, s, {}, {}) && Shaped(s.news, NEW_BUCKETS) && n <= j < |s.random|
    ensures s.random[n] in s.infos && s.random[j] in s.infos
    ensures var s' := SwappedBook(s, n, j);
            && BookOk(h, s', {}, {}) && BookPlaces(h, s') == BookPlaces(h, s) && SameButPositions(s.infos, s'.infos)
            && |s'.random| == |s.random| && s'.random[..n] == s.random[..n]
            && s' == s.(infos := s'.infos, random := s'.random)
  {
    hide TriedOk, NewOk, Counted, Indexed, BookPlaces;
    SwappedBookOk(h, s, {}, {}, n, j);
    SwappedBookPlaces(h, s, n, j);
    var i1, i2 := s.random[n], s.random[j];
    assert i1 in s.infos && i2 in s.infos;
  }

  lemma SamePositionsTransitively(a: Infos, b: Infos, c: Infos)
    requires SameButPositions(a, b) && SameButPositions(b, c)
    ensures SameButPositions(a, c)
  {
    forall id | id in a ensures SameButPosition(a[id], c[id]) {
      assert SameButPosition(a[id], b[id]) && SameButPosition(b[id], c[id]);
    }
  }

  function SampleSize(entries: nat, maxAddresses: nat, maxPct: nat): nat {
    var share := if maxPct != 0 then maxPct * entries / 100 else entries;
    if maxAddresses != 0 && maxAddresses < share then maxAddresses else share
  }

  lemma SamePositionsHere(infos: Infos)
    ensures SameButPositions(infos, infos)
  {
  }

  /** What a filter keeps of the front of vRandom. */
  lemma Sampled(h: Hasher, s: Book, n: nat, f: Filter)
    requires BookOk(h, s, {}, {}) && n <= |s.random| && forall i :: 0 <= i < |s.random| ==> s.random[i] in s.infos
    ensures var kept := Kept(s.infos, s.random[..n], f);
            && (forall i, j :: 0 <= i < j < |kept| ==> kept[i] != kept[j])
            && (forall a :: a in kept ==> a in s.addrs && s.addrs[a] in s.infos && Keeps(f, s.infos[s.addrs[a]]))
            && (n == |s.random| ==>
                  forall a :: a in s.addrs && s.addrs[a] in s.infos && Keeps(f, s.infos[s.addrs[a]]) ==> a in kept)
  {
    hide TriedOk, NewOk, Counted, Keeps, Shuffled;
    RandomListsEntries(h, s);
    var ids := s.random[..n];
    KeptIsTheFilter(s.infos, ids, f);
    forall a | a in Kept(s.infos, ids, f)
      ensures a in s.addrs && s.addrs[a] in s.infos && Keeps(f, s.infos[s.addrs[a]])
    {
      assert KeptOf(s.infos, ids, f, a);
      var i :| 0 <= i < n && s.infos[ids[i]].addr == a && Keeps(f, s.infos[ids[i]]);
      var id := ids[i];
      assert id in s.infos && s.addrs[a] == id;
    }
    if n == |s.random| {
      assert ids == s.random;
      forall a | a in s.addrs && s.addrs[a] in s.infos && Keeps(f, s.infos[s.addrs[a]])
        ensures a in Kept(s.infos, ids, f)
      {
        var i :| 0 <= i < |ids| && s.infos[ids[i]].addr == a;
        var id := ids[i];
        assert id in s.infos && s.addrs[a] == id;
        assert KeptOf(s.infos, ids, f, a);
      }
    }
  }

  lemma RenumberedOnward(h: Hasher, s: Book, infos': Infos, random': seq<int>)
    requires SameButPositions(s.infos, infos') && Shaped(s.tried, TRIED_BUCKETS)
    ensures Onward(s, s.(infos := infos', random := random'))
  {
    forall id | id in infos' ensures id in s.infos && infos'[id].addr == s.infos[id].addr {
      assert SameButPosition(s.infos[id], infos'[id]);
    }
  }

  lemma NothingInRandom(h: Hasher, s: Book, network: Option<int>)
    requires BookOk(h, s, {}, {})
    ensures s.random == [] ==> forall id, tried :: !Selectable(h, s, tried, network, id)
  {
    hide Indexed, TriedOk, NewOk, Counted;
  }

  lemma EmptyIsNobody(h: Hasher, s: Book, tried: bool, network: Option<int>)
    requires BookOk(h, s, {}, {})
    ensures !Selectable(h, s, tried, network, EMPTY)
  {
    hide Indexed, TriedOk, Shuffled, Counted;
  }
}
