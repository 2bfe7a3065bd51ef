/**
 What the address manager writes to disk, and how it is read back: the parts of a file that
 Serialize produces and Unserialize consumes, as records.
 */
module AddrFile {
  import opened Common
  import opened AddrModel
  import opened AddrBook
  import AddrCheck

  const INCOMPATIBILITY_BASE := 32
  const FILE_FORMAT := 4
  const V2_ASMAP := 2

  /** The fields of an entry that are not memory-only. */
  datatype Record = Record(addr: Service, time: int, services: set<int>, source: int, lastSuccess: int, attempts: int)

  datatype File = File(
    format: int, compat: int,
    news: seq<Record>, trieds: seq<Record>, buckets: seq<seq<int>>, asmap: int)

  function RecordOf(info: AddrInfo): Record {
    Record(info.addr, info.time, info.services, info.source, info.lastSuccess, info.attempts)
  }

  function InfoOf(r: Record, pos: int, inTried: bool): AddrInfo {
    AddrInfo(r.addr, r.time, r.services, r.source, 0, 0, r.lastSuccess, r.attempts, 0, inTried, pos)
  }

  // ---------------------------------------------------------------- reading, record by record

  function NewLoaded(h: Hasher, s: Book, r: Record): Book {
    var n := |s.random|;
    s.(infos := s.infos[n := InfoOf(r, n, false)], addrs := s.addrs[r.addr := n], random := s.random + [n],
       counts := Bump(s.counts, h.Network(r.addr), 1, 0), idCount := n + 1)
  }

  function TriedLoaded(h: Hasher, s: Book, r: Record): Book
    requires Shaped(s.tried, TRIED_BUCKETS)
  {
    var n := s.idCount;
    if h.valid(r.addr) && TriedCell(h, s.tried, r.addr) == EMPTY then
      s.(infos := s.infos[n := InfoOf(r, |s.random|, true)], addrs := s.addrs[r.addr := n], random := s.random + [n],
         tried := Put(s.tried, h.TriedBucket(r.addr), h.TriedPos(r.addr), n),
         counts := Bump(s.counts, h.Network(r.addr), 0, 1), idCount := n + 1)
    else s.(nTried := s.nTried - 1)
  }

  predicate SameButReferences(x: AddrInfo, y: AddrInfo) {
    y == x.(refCount := y.refCount)
  }

  /** Only references and cells of new differ. */
  ghost predicate Referenced(s: Book, s': Book) {
    && s' == s.(infos := s'.infos, news := s'.news) && s'.infos.Keys == s.infos.Keys
    && (Shaped(s.news, NEW_BUCKETS) ==> Shaped(s'.news, NEW_BUCKETS))
    && forall id :: id in s.infos ==> SameButReferences(s.infos[id], s'.infos[id])
  }

  lemma ReferencedTransitively(s: Book, s1: Book, s2: Book)
    requires Referenced(s, s1) && Referenced(s1, s2)
    ensures Referenced(s, s2)
  {
    forall id | id in s.infos ensures SameButReferences(s.infos[id], s2.infos[id]) {
      assert SameButReferences(s.infos[id], s1.infos[id]) && SameButReferences(s1.infos[id], s2.infos[id]);
    }
  }

  lemma CellLoadedReferenced(h: Hasher, s: Book, restore: bool, b: nat, id: int)
    requires Shaped(s.news, NEW_BUCKETS) && id in s.infos && (restore ==> b < NEW_BUCKETS)
    ensures Referenced(s, CellLoaded(h, s, restore, b, id))
  {
  }

  /** An entry's bucket is restored; failing that, the entry is put into its home cell if free. */
  function CellLoaded(h: Hasher, s: Book, restore: bool, b: nat, id: int): Book
    requires Shaped(s.news, NEW_BUCKETS) && id in s.infos && (restore ==> b < NEW_BUCKETS)
  {
    var info := s.infos[id];
    var home := h.NewBucket(info.addr, info.source);
    if !h.valid(info.addr) || info.refCount >= NEW_BUCKETS_PER_ADDRESS then s
    else if restore && s.news[b][h.NewPos(info.addr, b)] == EMPTY then CellGained(s, b, h.NewPos(info.addr, b), id)
    else if s.news[home][h.NewPos(info.addr, home)] == EMPTY then CellGained(s, home, h.NewPos(info.addr, home), id)
    else s
  }

  // ---------------------------------------------------------------- what any file leads to

  /** Entries that are in no table yet. */
  function Unplaced(infos: Infos): set<int> {
    set id | id in infos && !infos[id].inTried && infos[id].refCount == 0
  }

  /** Half of Indexed: an address leads to an entry of that address, if to any. */
  ghost predicate Named(infos: Infos, addrs: map<Service, int>, idCount: int) {
    && idCount >= 0 && (forall id :: id in infos ==> 0 <= id < idCount)
    && (forall a :: a in addrs ==> addrs[a] in infos && infos[addrs[a]].addr == a)
  }

  lemma NamedMore(infos: Infos, addrs: map<Service, int>, idCount: int, random: seq<int>, info: AddrInfo)
    requires Named(infos, addrs, idCount) && Shuffled(infos, random) && info.randomPos == |random|
    ensures idCount >= 0 && idCount !in infos
    ensures Named(infos[idCount := info], addrs[info.addr := idCount], idCount + 1)
    ensures Shuffled(infos[idCount := info], random + [idCount])
  {
  }

  /** The network counters are right, whatever the totals are. */
  ghost predicate Tallied(h: Hasher, infos: Infos, counts: map<int, NewTriedCount>) {
    Counted(h, infos, {}, |NewIds(infos, {})|, |TriedIds(infos)|, counts)
  }

  lemma OneMoreId(infos: Infos, id: int, info: AddrInfo)
    requires id !in infos
    ensures var infos' := infos[id := info];
            && NewIds(infos', {}) == NewIds(infos, {}) + (if info.inTried then {} else {id})
            && TriedIds(infos') == TriedIds(infos) + (if info.inTried then {id} else {})
            && SameAddresses(infos, infos', NewIds(infos, {}) + TriedIds(infos))
            && id !in NewIds(infos, {}) && id !in TriedIds(infos)
  {
  }

  lemma TalliedNewMore(h: Hasher, infos: Infos, counts: map<int, NewTriedCount>, id: int, info: AddrInfo)
    requires Tallied(h, infos, counts) && id !in infos && !info.inTried
    ensures Tallied(h, infos[id := info], Bump(counts, h.Network(info.addr), 1, 0))
  {
    hide Counted, Bump, NewIds, TriedIds, SameAddresses;
    OneMoreId(infos, id, info);
    CountedNewPlus(h, infos, infos[id := info], {}, {}, id, |NewIds(infos, {})|, |TriedIds(infos)|, counts);
  }

  lemma TalliedTriedMore(h: Hasher, infos: Infos, counts: map<int, NewTriedCount>, id: int, info: AddrInfo)
    requires Tallied(h, infos, counts) && id !in infos && info.inTried
    ensures Tallied(h, infos[id := info], Bump(counts, h.Network(info.addr), 0, 1))
  {
    hide Counted, Bump, NewIds, TriedIds, SameAddresses;
    OneMoreId(infos, id, info);
    CountedTriedPlus(h, infos, infos[id := info], {}, {}, id, |NewIds(infos, {})|, |TriedIds(infos)|, counts);
  }

  /** As consistent as a book can be before anybody has looked for an address that occurs twice. */
  ghost predicate Loading(h: Hasher, s: Book) {
    && Named(s.infos, s.addrs, s.idCount) && Shuffled(s.infos, s.random)
    && TriedOk(h, s.infos, s.tried) && NewOk(h, s.infos, s.news, Unplaced(s.infos))
    && Tallied(h, s.infos, s.counts)
  }

  function Blank(): Book {
    Book(0, map[], map[], [], 0, seq(TRIED_BUCKETS, _ => seq(BUCKET_SIZE, _ => EMPTY)),
         0, seq(NEW_BUCKETS, _ => seq(BUCKET_SIZE, _ => EMPTY)), map[])
  }

  lemma BlankLoading(h: Hasher, nNew: int, nTried: int)
    ensures Loading(h, Blank().(nNew := nNew, nTried := nTried))
  {
    EmptyBookCounted(h);
    assert NewIds(map[], {}) == {} && TriedIds(map[]) == {} && Unplaced(map[]) == {};
  }

  lemma NewLoadedKeeps(h: Hasher, s: Book, r: Record)
    requires Loading(h, s) && s.idCount == |s.random| >= 0
    ensures Loading(h, NewLoaded(h, s, r))
  {
    hide TriedOk, NewOk, Tallied, Named, Shuffled;
    var s', id := NewLoaded(h, s, r), s.idCount;
    var info := InfoOf(r, id, false);
    NamedMore(s.infos, s.addrs, id, s.random, info);
    CreateInTables(h, s.infos, s.tried, s.news, Unplaced(s.infos), id, info);
    assert Unplaced(s'.infos) == Unplaced(s.infos) + {id};
    TalliedNewMore(h, s.infos, s.counts, id, info);
  }

  lemma TriedLoadedKeeps(h: Hasher, s: Book, r: Record)
    requires Loading(h, s) && Shaped(s.tried, TRIED_BUCKETS)
    ensures Loading(h, TriedLoaded(h, s, r))
  {
    hide TriedOk, NewOk, Tallied, Named, Shuffled;
    if h.valid(r.addr) && TriedCell(h, s.tried, r.addr) == EMPTY {
      var s', id := TriedLoaded(h, s, r), s.idCount;
      var loose, info := InfoOf(r, |s.random|, false), InfoOf(r, |s.random|, true);
      NamedMore(s.infos, s.addrs, id, s.random, info);
      var unplaced := Unplaced(s.infos);
      CreateInTables(h, s.infos, s.tried, s.news, unplaced, id, loose);
      EnterTried(h, s.infos[id := loose], s.tried, s.news, unplaced + {id}, id);
      assert s.infos[id := loose][id := info] == s'.infos;
      assert unplaced + {id} - {id} == unplaced == Unplaced(s'.infos);
      TalliedTriedMore(h, s.infos, s.counts, id, info);
    }
  }

  lemma UnplacedGains(infos: Infos, id: int)
    requires id in infos && infos[id].refCount >= 0
    ensures Unplaced(WithRefCount(infos, id, infos[id].refCount + 1)) == Unplaced(infos) - {id}
  {
  }

  lemma CellGainedLoading(h: Hasher, s: Book, b: nat, p: nat, id: int)
    requires Loading(h, s) && MayGain(h, s, b, p, id)
    ensures Loading(h, CellGained(s, b, p, id))
  {
    hide TriedOk, NewOk, Named, Shuffled;
    var infos' := WithRefCount(s.infos, id, s.infos[id].refCount + 1);
    ReferencesCount(h, s.infos, s.news, Unplaced(s.infos), id);
    FillCellKeeps(h, s.infos, s.news, Unplaced(s.infos), b, p, id);
    RefCountTriedOk(h, s.infos, s.tried, id, s.infos[id].refCount + 1);
    UnplacedGains(s.infos, id);
    RefCountNamed(s, id, s.infos[id].refCount + 1);
    RefCountTallied(h, s.infos, s.counts, id, s.infos[id].refCount + 1);
  }

  lemma ReferencesCount(h: Hasher, infos: Infos, news: Table, loose: set<int>, id: int)
    requires NewOk(h, infos, news, loose) && id in infos
    ensures infos[id].refCount >= 0
  {
  }

  lemma RefCountNamed(s: Book, id: int, n: int)
    requires Named(s.infos, s.addrs, s.idCount) && Shuffled(s.infos, s.random) && id in s.infos
    ensures Named(WithRefCount(s.infos, id, n), s.addrs, s.idCount) && Shuffled(WithRefCount(s.infos, id, n), s.random)
  {
  }

  lemma RefCountTallied(h: Hasher, infos: Infos, counts: map<int, NewTriedCount>, id: int, n: int)
    requires Tallied(h, infos, counts) && id in infos
    ensures Tallied(h, WithRefCount(infos, id, n), counts)
  {
    hide Counted;
    var infos' := WithRefCount(infos, id, n);
    assert NewIds(infos', {}) == NewIds(infos, {}) && TriedIds(infos') == TriedIds(infos);
    CountedSame(h, infos, infos', {}, {}, |NewIds(infos, {})|, |TriedIds(infos)|, counts);
  }

  lemma CellLoadedKeeps(h: Hasher, s: Book, restore: bool, b: nat, id: int)
    requires Loading(h, s) && Shaped(s.news, NEW_BUCKETS) && id in s.infos && (restore ==> b < NEW_BUCKETS)
    requires !s.infos[id].inTried
    ensures Loading(h, CellLoaded(h, s, restore, b, id))
  {
    hide Loading;
    var info := s.infos[id];
    var home := h.NewBucket(info.addr, info.source);
    if h.valid(info.addr) && info.refCount < NEW_BUCKETS_PER_ADDRESS {
      if restore && s.news[b][h.NewPos(info.addr, b)] == EMPTY {
        CellGainedLoading(h, s, b, h.NewPos(info.addr, b), id);
      } else if s.news[home][h.NewPos(info.addr, home)] == EMPTY {
        CellGainedLoading(h, s, home, h.NewPos(info.addr, home), id);
      }
    }
  }

  // ---------------------------------------------------------------- pruning

  lemma SwappedLoading(h: Hasher, s: Book, i: nat, j: nat)
    requires Loading(h, s) && Shuffled(s.infos, s.random) && i < |s.random| && j < |s.random|
    ensures Loading(h, SwappedBook(s, i, j))
  {
    hide TriedOk, NewOk, Counted;
    if i != j {
      SwapShuffled(s.infos, s.random, i, j);
      var infos' := SwappedInfos(s.infos, s.random, i, j);
      SamePlacesTables(h, s.infos, infos', s.tried, s.news, Unplaced(s.infos));
      assert Unplaced(infos') == Unplaced(s.infos);
      assert NewIds(infos', {}) == NewIds(s.infos, {}) && TriedIds(infos') == TriedIds(s.infos);
      SamePlacesCounted(h, s.infos, infos', {}, |NewIds(s.infos, {})|, |TriedIds(s.infos)|, s.counts);
    }
  }

  lemma DroppedLoading(h: Hasher, s: Book, id: int)
    requires Loading(h, s) && id in Unplaced(s.infos) && s.random != [] && s.random[|s.random| - 1] == id
    ensures Loading(h, Dropped(h, s, id))
  {
    hide TriedOk, NewOk, Named, Shuffled;
    var infos' := s.infos - {id};
    DeleteInTables(h, s.infos, s.tried, s.news, Unplaced(s.infos), id);
    assert Unplaced(infos') == Unplaced(s.infos) - {id};
    DroppedNamed(s, id);
    DroppedTallied(h, s.infos, s.counts, id);
  }

  lemma DroppedNamed(s: Book, id: int)
    requires Named(s.infos, s.addrs, s.idCount) && Shuffled(s.infos, s.random)
    requires id in s.infos && s.random != [] && s.random[|s.random| - 1] == id
    ensures Named(s.infos - {id}, s.addrs - {s.infos[id].addr}, s.idCount)
    ensures Shuffled(s.infos - {id}, s.random[..|s.random| - 1])
  {
  }

  lemma DroppedTallied(h: Hasher, infos: Infos, counts: map<int, NewTriedCount>, id: int)
    requires Tallied(h, infos, counts) && id in infos && !infos[id].inTried
    ensures Tallied(h, infos - {id}, Bump(counts, h.Network(infos[id].addr), -1, 0))
  {
    hide Counted, Bump;
    var infos', news, trieds := infos - {id}, NewIds(infos, {}), TriedIds(infos);
    assert NewIds(infos', {}) == news - {id} && TriedIds(infos') == trieds;
    assert SameAddresses(infos, infos', (news - {id}) + trieds);
    CountedNewMinus(h, infos, infos', {}, {}, id, |news|, |trieds|, counts);
  }

  lemma DeletedLoading(h: Hasher, s: Book, id: int)
    requires Loading(h, s) && id in Unplaced(s.infos)
    ensures Deletable(s, id) && Loading(h, Deleted(h, s, id))
    ensures Unplaced(Deleted(h, s, id).infos) == Unplaced(s.infos) - {id}
    ensures Deleted(h, s, id).infos.Keys == s.infos.Keys - {id}
  {
    hide TriedOk, NewOk, Named, Tallied;
    EveryEntryIsDeletable(s, id);
    var s1 := SwappedBook(s, s.infos[id].randomPos, |s.random| - 1);
    SwappedLoading(h, s, s.infos[id].randomPos, |s.random| - 1);
    assert s1.infos.Keys == s.infos.Keys && Unplaced(s1.infos) == Unplaced(s.infos);
    DroppedLoading(h, s1, id);
    assert Unplaced(s1.infos - {id}) == Unplaced(s1.infos) - {id};
  }

  function AddressesOf(infos: Infos, ids: set<int>): set<Service> {
    set id | id in ids && id in infos :: infos[id].addr
  }

  /** The same book with some new entries gone, and the others where and as they were. */
  ghost predicate Without(s: Book, s': Book, gone: set<int>) {
    && s'.infos.Keys == s.infos.Keys - gone
    && (forall id :: id in s'.infos ==> SameButPosition(s.infos[id], s'.infos[id]))
    && s'.addrs == s.addrs - AddressesOf(s.infos, gone)
    && s'.news == s.news && s'.tried == s.tried && s'.idCount == s.idCount
    && s'.nNew == s.nNew - |gone| && s'.nTried == s.nTried
  }

  lemma WithoutNone(s: Book)
    ensures Without(s, s, {})
  {
  }

  lemma SwappedIsWithout(s: Book, s': Book, gone: set<int>, i: nat, j: nat)
    requires Without(s, s', gone) && i < |s'.random| && j < |s'.random|
    requires s'.random[i] in s'.infos && s'.random[j] in s'.infos
    ensures Without(s, SwappedBook(s', i, j), gone)
  {
  }

  lemma DroppedIsWithout(h: Hasher, s: Book, s': Book, gone: set<int>, id: int)
    requires Without(s, s', gone) && gone <= s.infos.Keys && id in s'.infos && s'.random != []
    ensures Without(s, Dropped(h, s', id), gone + {id})
  {
    hide Bump;
    assert AddressesOf(s.infos, gone + {id}) == AddressesOf(s.infos, gone) + {s.infos[id].addr};
    assert |gone + {id}| == |gone| + 1;
  }

  lemma DeletedIsWithout(h: Hasher, s: Book, s': Book, gone: set<int>, id: int)
    requires Without(s, s', gone) && gone <= s.infos.Keys && Loading(h, s') && id in s'.infos
    ensures Deletable(s', id) && Without(s, Deleted(h, s', id), gone + {id})
  {
    hide Without, TriedOk, NewOk, Named, Tallied, Dropped;
    EveryEntryIsDeletable(s', id);
    var i, j := s'.infos[id].randomPos, |s'.random| - 1;
    SwappedIsWithout(s, s', gone, i, j);
    DroppedIsWithout(h, s, SwappedBook(s', i, j), gone, id);
  }

  // ---------------------------------------------------------------- reading a whole file

  datatype Entry = Entry(bucket: nat, id: int)

  function NewsLoaded(h: Hasher, s: Book, rs: seq<Record>): (s': Book)
    ensures |s'.random| == |s.random| + |rs| && (s.idCount == |s.random| ==> s'.idCount == |s'.random|)
  {
    if rs == [] then s else NewLoaded(h, NewsLoaded(h, s, rs[..|rs| - 1]), rs[|rs| - 1])
  }

  function TriedsLoaded(h: Hasher, s: Book, rs: seq<Record>): (s': Book)
    requires Shaped(s.tried, TRIED_BUCKETS)
    ensures Shaped(s'.tried, TRIED_BUCKETS)
  {
    if rs == [] then s else TriedLoaded(h, TriedsLoaded(h, s, rs[..|rs| - 1]), rs[|rs| - 1])
  }

  /** The indices of one bucket that name an entry. */
  function RowEntries(b: nat, row: seq<int>, nNew: int): seq<Entry> {
    if row == [] then []
    else
      var (rest, last) := (RowEntries(b, row[..|row| - 1], nNew), row[|row| - 1]);
      if 0 <= last < nNew then rest + [Entry(b, last)] else rest
  }

  function Entries(buckets: seq<seq<int>>, nNew: int): seq<Entry> {
    if buckets == [] then []
    else Entries(buckets[..|buckets| - 1], nNew) + RowEntries(|buckets| - 1, buckets[|buckets| - 1], nNew)
  }

  ghost predicate Loadable(s: Book, restore: bool, es: seq<Entry>) {
    Shaped(s.news, NEW_BUCKETS) &&
    forall i :: 0 <= i < |es| ==>
      es[i].id in s.infos && !s.infos[es[i].id].inTried && (restore ==> es[i].bucket < NEW_BUCKETS)
  }

  ghost function CellsLoaded(h: Hasher, s: Book, restore: bool, es: seq<Entry>): (s': Book)
    requires Loadable(s, restore, es)
    ensures Referenced(s, s')
  {
    if es == [] then s
    else
      var e := es[|es| - 1];
      var s1 := CellsLoaded(h, s, restore, es[..|es| - 1]);
      assert e.id in s.infos;
      CellLoadedReferenced(h, s1, restore, e.bucket, e.id);
      ReferencedTransitively(s, s1, CellLoaded(h, s1, restore, e.bucket, e.id));
      CellLoaded(h, s1, restore, e.bucket, e.id)
  }

  lemma {:induction false} NewsLoadedKeeps(h: Hasher, s: Book, rs: seq<Record>)
    requires Loading(h, s) && s.idCount == |s.random|
    ensures Loading(h, NewsLoaded(h, s, rs))
  {
    hide Loading;
    if rs != [] {
      NewsLoadedKeeps(h, s, rs[..|rs| - 1]);
      NewLoadedKeeps(h, NewsLoaded(h, s, rs[..|rs| - 1]), rs[|rs| - 1]);
    }
  }

  lemma {:induction false} TriedsLoadedKeeps(h: Hasher, s: Book, rs: seq<Record>)
    requires Loading(h, s) && Shaped(s.tried, TRIED_BUCKETS)
    ensures Loading(h, TriedsLoaded(h, s, rs))
  {
    hide Loading;
    if rs != [] {
      TriedsLoadedKeeps(h, s, rs[..|rs| - 1]);
      TriedLoadedKeeps(h, TriedsLoaded(h, s, rs[..|rs| - 1]), rs[|rs| - 1]);
    }
  }

  lemma {:induction false} CellsLoadedKeeps(h: Hasher, s: Book, restore: bool, es: seq<Entry>)
    requires Loading(h, s) && Loadable(s, restore, es)
    ensures Loading(h, CellsLoaded(h, s, restore, es))
  {
    hide Loading, CellLoaded;
    if es != [] {
      var s1, e := CellsLoaded(h, s, restore, es[..|es| - 1]), es[|es| - 1];
      CellsLoadedKeeps(h, s, restore, es[..|es| - 1]);
      assert e.id in s.infos && SameButReferences(s.infos[e.id], s1.infos[e.id]);
      CellLoadedKeeps(h, s1, restore, e.bucket, e.id);
    }
  }

  /** Where the records of a file leave the book before the buckets are read. */
  function RecordsLoaded(h: Hasher, file: File): (s: Book)
    ensures Shaped(s.tried, TRIED_BUCKETS)
  {
    var start := Blank().(nNew := |file.news|, nTried := |file.trieds|);
    NewsLoadedTables(h, start, file.news);
    TriedsLoaded(h, NewsLoaded(h, start, file.news), file.trieds)
  }

  lemma NewsLoadedTables(h: Hasher, s: Book, rs: seq<Record>)
    ensures var s' := NewsLoaded(h, s, rs);
            s'.tried == s.tried && s'.news == s.news && s'.nNew == s.nNew && s'.nTried == s.nTried
  {
  }

  lemma RecordsLoading(h: Hasher, file: File)
    ensures Loading(h, RecordsLoaded(h, file))
  {
    hide Loading;
    var start := Blank().(nNew := |file.news|, nTried := |file.trieds|);
    BlankLoading(h, |file.news|, |file.trieds|);
    NewsLoadedKeeps(h, start, file.news);
    NewsLoadedTables(h, start, file.news);
    TriedsLoadedKeeps(h, NewsLoaded(h, start, file.news), file.trieds);
  }

  // ---------------------------------------------------------------- only valid addresses find a place

  ghost predicate AllValid(h: Hasher, infos: Infos) {
    forall id :: id in infos ==> h.valid(infos[id].addr)
  }

  /** Whoever is in a table has a valid address. */
  ghost predicate PlacedValid(h: Hasher, infos: Infos) {
    forall id :: id in infos && (infos[id].inTried || infos[id].refCount != 0) ==> h.valid(infos[id].addr)
  }

  lemma {:induction false} NewsLoadedValid(h: Hasher, s: Book, rs: seq<Record>)
    requires PlacedValid(h, s.infos)
    ensures PlacedValid(h, NewsLoaded(h, s, rs).infos)
  {
    hide Bump;
    if rs != [] {
      NewsLoadedValid(h, s, rs[..|rs| - 1]);
    }
  }

  lemma {:induction false} TriedsLoadedValid(h: Hasher, s: Book, rs: seq<Record>)
    requires PlacedValid(h, s.infos) && Shaped(s.tried, TRIED_BUCKETS)
    ensures PlacedValid(h, TriedsLoaded(h, s, rs).infos)
  {
    hide Bump, Put;
    if rs != [] {
      TriedsLoadedValid(h, s, rs[..|rs| - 1]);
    }
  }

  lemma {:induction false} CellsLoadedValid(h: Hasher, s: Book, restore: bool, es: seq<Entry>)
    requires PlacedValid(h, s.infos) && Loadable(s, restore, es)
    ensures PlacedValid(h, CellsLoaded(h, s, restore, es).infos)
  {
    hide Put, Referenced;
    if es != [] {
      CellsLoadedValid(h, s, restore, es[..|es| - 1]);
    }
  }

  /** The header is one that this version reads, and the tables are large enough. */
  predicate Acceptable(file: File) {
    && INCOMPATIBILITY_BASE <= file.compat <= INCOMPATIBILITY_BASE + FILE_FORMAT
    && |file.news| <= NEW_BUCKETS * BUCKET_SIZE && |file.trieds| <= TRIED_BUCKETS * BUCKET_SIZE
  }

  /** The buckets of the file can be used as they are. */
  predicate Restorable(file: File, asmap: int) {
    |file.buckets| == NEW_BUCKETS && (if file.format >= V2_ASMAP then file.asmap else 0) == asmap
  }

  /** Ids of new records come first. */
  ghost predicate FirstIds(infos: Infos, n: nat) {
    forall i :: (i in infos <==> 0 <= i < n) && (i in infos ==> !infos[i].inTried)
  }

  lemma FirstIdsMore(infos: Infos, n: nat, info: AddrInfo)
    requires FirstIds(infos, n) && !info.inTried
    ensures FirstIds(infos[n := info], n + 1)
  {
  }

  lemma {:induction false} NewsLoadedIds(h: Hasher, s: Book, rs: seq<Record>)
    requires s.infos == map[] && s.random == []
    ensures FirstIds(NewsLoaded(h, s, rs).infos, |rs|)
  {
    if rs != [] {
      var n := |rs| - 1;
      NewsLoadedIds(h, s, rs[..n]);
      var s1 := NewsLoaded(h, s, rs[..n]);
      assert |s1.random| == n;
      FirstIdsMore(s1.infos, n, InfoOf(rs[n], n, false));
    }
  }

  lemma {:induction false} TriedsLoadedKeepNew(h: Hasher, s: Book, rs: seq<Record>, n: nat)
    requires Shaped(s.tried, TRIED_BUCKETS) && s.idCount >= n
    requires forall i :: 0 <= i < n ==> i in s.infos && !s.infos[i].inTried
    ensures var s' := TriedsLoaded(h, s, rs);
            && s'.idCount >= n && s'.news == s.news
            && forall i :: 0 <= i < n ==> i in s'.infos && s'.infos[i] == s.infos[i]
  {
    if rs != [] {
      TriedsLoadedKeepNew(h, s, rs[..|rs| - 1], n);
    }
  }

  lemma {:induction false} RowEntriesInRange(b: nat, row: seq<int>, nNew: int)
    ensures forall i :: 0 <= i < |RowEntries(b, row, nNew)| ==>
              RowEntries(b, row, nNew)[i].bucket == b && 0 <= RowEntries(b, row, nNew)[i].id < nNew
  {
    if row != [] {
      RowEntriesInRange(b, row[..|row| - 1], nNew);
    }
  }

  lemma {:induction false} EntriesInRange(buckets: seq<seq<int>>, nNew: int)
    ensures forall i :: 0 <= i < |Entries(buckets, nNew)| ==>
              Entries(buckets, nNew)[i].bucket < |buckets| && 0 <= Entries(buckets, nNew)[i].id < nNew
  {
    if buckets != [] {
      EntriesInRange(buckets[..|buckets| - 1], nNew);
      RowEntriesInRange(|buckets| - 1, buckets[|buckets| - 1], nNew);
    }
  }

  /** Every entry of a file can be looked up. */
  lemma RecordsLoadable(h: Hasher, file: File, restore: bool)
    requires restore ==> |file.buckets| == NEW_BUCKETS
    ensures Loadable(RecordsLoaded(h, file), restore, Entries(file.buckets, |file.news|))
  {
    var start := Blank().(nNew := |file.news|, nTried := |file.trieds|);
    NewsLoadedIds(h, start, file.news);
    NewsLoadedTables(h, start, file.news);
    TriedsLoadedKeepNew(h, NewsLoaded(h, start, file.news), file.trieds, |file.news|);
    EntriesInRange(file.buckets, |file.news|);
  }

  /** The book a file leads to before entries without a place are removed. */
  ghost function Loaded(h: Hasher, file: File, asmap: int): (s: Book) {
    RecordsLoadable(h, file, Restorable(file, asmap));
    CellsLoaded(h, RecordsLoaded(h, file), Restorable(file, asmap), Entries(file.buckets, |file.news|))
  }

  lemma LoadedLoading(h: Hasher, file: File, asmap: int)
    ensures Loading(h, Loaded(h, file, asmap))
  {
    hide Loading;
    RecordsLoading(h, file);
    RecordsLoadable(h, file, Restorable(file, asmap));
    CellsLoadedKeeps(h, RecordsLoaded(h, file), Restorable(file, asmap), Entries(file.buckets, |file.news|));
  }

  /** Whoever is left when the entries without a place are gone has a valid address. */
  lemma LoadedValid(h: Hasher, file: File, asmap: int, s': Book)
    requires var s := Loaded(h, file, asmap); Without(s, s', Unplaced(s.infos))
    ensures AllValid(h, s'.infos)
  {
    hide CellsLoaded, NewsLoaded, TriedsLoaded, Entries;
    var start := Blank().(nNew := |file.news|, nTried := |file.trieds|);
    NewsLoadedTables(h, start, file.news);
    NewsLoadedValid(h, start, file.news);
    TriedsLoadedValid(h, NewsLoaded(h, start, file.news), file.trieds);
    RecordsLoadable(h, file, Restorable(file, asmap));
    CellsLoadedValid(h, RecordsLoaded(h, file), Restorable(file, asmap), Entries(file.buckets, |file.news|));
    var s := Loaded(h, file, asmap);
    forall id | id in s'.infos ensures h.valid(s'.infos[id].addr) {
      assert SameButPosition(s.infos[id], s'.infos[id]);
    }
  }

  // ---------------------------------------------------------------- which files are taken

  /** Whoever has a place has a time of success that fits it, and an address of its own. */
  ghost predicate Sound(s: Book) {
    forall id :: id in s.infos && id !in Unplaced(s.infos) ==> SoundEntry(s.infos, id)
  }

  ghost predicate SoundEntry(infos: Infos, id: int)
    requires id in infos
  {
    && infos[id].lastSuccess >= 0 && (infos[id].inTried ==> infos[id].lastSuccess != 0)
    && forall other :: other in infos && infos[other].addr == infos[id].addr ==> other == id
  }

  /** The totals are right, although they are read and not counted. */
  ghost predicate Totalled(s: Book) {
    s.nNew == |NewIds(s.infos, {})| && s.nTried == |TriedIds(s.infos)|
  }

  lemma {:induction false} NewsLoadedTotal(h: Hasher, s: Book, rs: seq<Record>)
    requires s.infos == map[] && s.random == []
    ensures var s' := NewsLoaded(h, s, rs);
            && |s'.random| == |rs| && |NewIds(s'.infos, {})| == |rs| && TriedIds(s'.infos) == {}
            && forall id :: id in s'.infos ==> 0 <= id < |rs|
  {
    hide Bump;
    if rs != [] {
      var n := |rs| - 1;
      NewsLoadedTotal(h, s, rs[..n]);
      var s1, s' := NewsLoaded(h, s, rs[..n]), NewsLoaded(h, s, rs);
      assert NewIds(s'.infos, {}) == NewIds(s1.infos, {}) + {n} && TriedIds(s'.infos) == {};
    } else {
      assert NewIds(s.infos, {}) == {} && TriedIds(s.infos) == {};
    }
  }

  lemma {:induction false} TriedsLoadedTotal(h: Hasher, s: Book, rs: seq<Record>)
    requires Shaped(s.tried, TRIED_BUCKETS) && forall id :: id in s.infos ==> id < s.idCount
    ensures var s' := TriedsLoaded(h, s, rs);
            && (forall id :: id in s'.infos ==> id < s'.idCount)
            && NewIds(s'.infos, {}) == NewIds(s.infos, {}) && s'.nNew == s.nNew
            && |TriedIds(s'.infos)| - |TriedIds(s.infos)| == |rs| + s'.nTried - s.nTried
  {
    hide Bump, Put;
    if rs != [] {
      var n := |rs| - 1;
      TriedsLoadedTotal(h, s, rs[..n]);
      var s1, s' := TriedsLoaded(h, s, rs[..n]), TriedsLoaded(h, s, rs);
      if s'.infos != s1.infos {
        assert TriedIds(s'.infos) == TriedIds(s1.infos) + {s1.idCount};
        assert NewIds(s'.infos, {}) == NewIds(s1.infos, {});
      }
    }
  }

  lemma ReferencedTotal(s: Book, s': Book)
    requires Referenced(s, s') && Totalled(s)
    ensures Totalled(s')
  {
    forall id | id in s'.infos ensures SameButReferences(s.infos[id], s'.infos[id]) {
    }
    assert NewIds(s'.infos, {}) == NewIds(s.infos, {}) && TriedIds(s'.infos) == TriedIds(s.infos);
  }

  lemma LoadedTotalled(h: Hasher, file: File, asmap: int)
    ensures Totalled(Loaded(h, file, asmap))
  {
    hide NewsLoaded, TriedsLoaded, Entries, Referenced;
    var start := Blank().(nNew := |file.news|, nTried := |file.trieds|);
    var news := NewsLoaded(h, start, file.news);
    NewsLoadedTables(h, start, file.news);
    NewsLoadedTotal(h, start, file.news);
    TriedsLoadedTotal(h, news, file.trieds);
    RecordsLoadable(h, file, Restorable(file, asmap));
    ReferencedTotal(RecordsLoaded(h, file), Loaded(h, file, asmap));
  }

  lemma WithoutTotal(s: Book, s': Book)
    requires Totalled(s) && Without(s, s', Unplaced(s.infos))
    ensures Totalled(s')
  {
    forall id | id in s'.infos ensures SameButPosition(s.infos[id], s'.infos[id]) {
    }
    var gone, news := Unplaced(s.infos), NewIds(s.infos, {});
    assert NewIds(s'.infos, {}) == news - gone && TriedIds(s'.infos) == TriedIds(s.infos) && gone <= news;
  }

  /** Every address leads somewhere, and nobody has been tried yet. */
  ghost predicate AsRead(s: Book) {
    forall id :: id in s.infos ==> s.infos[id].lastTry == 0 && s.infos[id].addr in s.addrs
  }

  lemma {:induction false} NewsAsRead(h: Hasher, s: Book, rs: seq<Record>)
    requires AsRead(s)
    ensures AsRead(NewsLoaded(h, s, rs))
  {
    hide Bump;
    if rs != [] {
      NewsAsRead(h, s, rs[..|rs| - 1]);
    }
  }

  lemma {:induction false} TriedsAsRead(h: Hasher, s: Book, rs: seq<Record>)
    requires AsRead(s) && Shaped(s.tried, TRIED_BUCKETS)
    ensures AsRead(TriedsLoaded(h, s, rs))
  {
    hide Bump, Put;
    if rs != [] {
      TriedsAsRead(h, s, rs[..|rs| - 1]);
    }
  }

  lemma LoadedAsRead(h: Hasher, file: File, asmap: int)
    ensures AsRead(Loaded(h, file, asmap))
  {
    hide NewsLoaded, TriedsLoaded, Entries;
    var start := Blank().(nNew := |file.news|, nTried := |file.trieds|);
    NewsLoadedTables(h, start, file.news);
    NewsAsRead(h, start, file.news);
    TriedsAsRead(h, NewsLoaded(h, start, file.news), file.trieds);
    RecordsLoadable(h, file, Restorable(file, asmap));
    var s, s' := RecordsLoaded(h, file), Loaded(h, file, asmap);
    assert Referenced(s, s');
    forall id | id in s'.infos ensures SameButReferences(s.infos[id], s'.infos[id]) {
    }
  }

  lemma SoundIsIndexed(s: Book, s': Book)
    requires Sound(s) && AsRead(s) && Named(s.infos, s.addrs, s.idCount) && Without(s, s', Unplaced(s.infos))
    requires Named(s'.infos, s'.addrs, s'.idCount)
    ensures Indexed(s'.infos, s'.addrs, s'.idCount) && TimesOk(s'.infos)
  {
    var gone := Unplaced(s.infos);
    forall id | id in s'.infos
      ensures s'.infos[id].addr in s'.addrs && s'.addrs[s'.infos[id].addr] == id
      ensures s'.infos[id].lastTry >= 0 && s'.infos[id].lastSuccess >= 0
      ensures s'.infos[id].inTried ==> s'.infos[id].lastSuccess != 0
    {
      assert SameButPosition(s.infos[id], s'.infos[id]) && SoundEntry(s.infos, id);
      var a := s.infos[id].addr;
      assert s.addrs[a] == id;
      assert a !in AddressesOf(s.infos, gone) by {
        assert forall other :: other in gone ==> s.infos[other].addr != a;
      }
    }
  }

  lemma OkIsSound(h: Hasher, s: Book, s': Book)
    requires BookOk(h, s', {}, {}) && TimesOk(s'.infos) && Without(s, s', Unplaced(s.infos))
    ensures Sound(s)
  {
    hide TriedOk, NewOk, Shuffled, Counted;
    var gone := Unplaced(s.infos);
    forall id | id in s.infos && id !in gone ensures SoundEntry(s.infos, id) {
      assert SameButPosition(s.infos[id], s'.infos[id]);
      forall other | other in s.infos && s.infos[other].addr == s.infos[id].addr ensures other == id {
        assert s'.infos[id].addr in s'.addrs;
        assert other !in gone;
        assert SameButPosition(s.infos[other], s'.infos[other]);
      }
    }
  }

  lemma LoadedIsOk(h: Hasher, s: Book)
    requires Loading(h, s) && Unplaced(s.infos) == {} && Totalled(s) && Indexed(s.infos, s.addrs, s.idCount)
    ensures BookOk(h, s, {}, {})
  {
    hide TriedOk, NewOk, Shuffled, Indexed;
  }

  /** A book that passes the check after loading satisfies the whole invariant. */
  lemma CheckedIsOk(h: Hasher, s: Book)
    requires Loading(h, s) && Unplaced(s.infos) == {} && AddrCheck.Consistent(h, s)
    ensures BookOk(h, s, {}, {}) && TimesOk(s.infos)
  {
    hide TriedOk, NewOk, Shuffled, Counted, AddrCheck.CountsConsistent;
    forall id | id in s.infos ensures AddrCheck.EntryConsistent(s, id) {}
  }

  lemma LoadingNamed(h: Hasher, s: Book)
    requires Loading(h, s)
    ensures Named(s.infos, s.addrs, s.idCount)
  {
  }

  /** What a file leads to passes the check exactly if the file is sound, and then satisfies the
      whole invariant. */
  lemma SoundIsConsistent(h: Hasher, file: File, asmap: int, s': Book)
    requires var s := Loaded(h, file, asmap); Without(s, s', Unplaced(s.infos))
    requires Loading(h, s') && Unplaced(s'.infos) == {}
    ensures Sound(Loaded(h, file, asmap)) <==> AddrCheck.Consistent(h, s')
    ensures AddrCheck.Consistent(h, s') ==> BookOk(h, s', {}, {}) && TimesOk(s'.infos)
  {
    hide Loaded, Sound, Without, Loading, AddrCheck.Consistent, AddrCheck.Unchecked, BookOk, TimesOk, Totalled, AsRead,
         Named, Indexed;
    var s := Loaded(h, file, asmap);
    LoadedLoading(h, file, asmap);
    LoadingNamed(h, s);
    LoadingNamed(h, s');
    LoadedAsRead(h, file, asmap);
    LoadedTotalled(h, file, asmap);
    WithoutTotal(s, s');
    if Sound(s) {
      SoundIsIndexed(s, s');
      LoadedIsOk(h, s');
      AddrCheck.InvariantAndCheck(h, s');
    }
    if AddrCheck.Consistent(h, s') {
      CheckedIsOk(h, s');
      OkIsSound(h, s, s');
    }
  }

  // ---------------------------------------------------------------- a condition on the records

  /** No address is recorded twice, no time of success is negative, and whoever is recorded as
      tried has one. */
  ghost predicate WellKept(file: File) {
    var rs := file.news + file.trieds;
    && (forall i, j :: 0 <= i < j < |rs| ==> rs[i].addr != rs[j].addr)
    && (forall i :: 0 <= i < |rs| ==> rs[i].lastSuccess >= 0)
    && (forall i :: 0 <= i < |file.trieds| ==> file.trieds[i].lastSuccess > 0)
  }

  ghost predicate Clean(infos: Infos, from: set<Service>) {
    && (forall id :: id in infos ==> infos[id].addr in from)
    && (forall id :: id in infos ==> SoundEntry(infos, id))
  }

  lemma CleanMore(infos: Infos, from: set<Service>, id: int, info: AddrInfo)
    requires Clean(infos, from) && id !in infos && info.addr !in from
    requires info.lastSuccess >= 0 && (info.inTried ==> info.lastSuccess != 0)
    ensures Clean(infos[id := info], from + {info.addr})
  {
    var infos' := infos[id := info];
    forall x | x in infos' ensures SoundEntry(infos', x) {
      assert x != id ==> SoundEntry(infos, x) && infos[x].addr in from;
    }
  }

  function AddressesIn(rs: seq<Record>): set<Service> {
    set i | 0 <= i < |rs| :: rs[i].addr
  }

  lemma AddressesMore(rs: seq<Record>, r: Record)
    ensures AddressesIn(rs + [r]) == AddressesIn(rs) + {r.addr}
  {
    var all := rs + [r];
    assert all[|rs|] == r && forall i :: 0 <= i < |rs| ==> all[i] == rs[i];
  }

  lemma {:induction false} NewsClean(h: Hasher, s: Book, rs: seq<Record>)
    requires s.infos == map[] && s.random == []
    requires forall i, j :: 0 <= i < j < |rs| ==> rs[i].addr != rs[j].addr
    requires forall i :: 0 <= i < |rs| ==> rs[i].lastSuccess >= 0
    ensures Clean(NewsLoaded(h, s, rs).infos, AddressesIn(rs))
  {
    hide Bump, Clean;
    if rs == [] {
      NothingClean(AddressesIn(rs));
    } else {
      var n := |rs| - 1;
      NewsClean(h, s, rs[..n]);
      NewsLoadedTotal(h, s, rs[..n]);
      assert rs == rs[..n] + [rs[n]];
      AddressesMore(rs[..n], rs[n]);
      CleanMore(NewsLoaded(h, s, rs[..n]).infos, AddressesIn(rs[..n]), n, InfoOf(rs[n], n, false));
    }
  }

  lemma NothingClean(from: set<Service>)
    ensures Clean(map[], from)
  {
  }

  lemma {:induction false} TriedsClean(h: Hasher, s: Book, before: seq<Record>, rs: seq<Record>)
    requires Shaped(s.tried, TRIED_BUCKETS) && (forall id :: id in s.infos ==> id < s.idCount)
    requires Clean(s.infos, AddressesIn(before))
    requires forall i, j :: 0 <= i < j < |before + rs| ==> (before + rs)[i].addr != (before + rs)[j].addr
    requires forall i :: 0 <= i < |rs| ==> rs[i].lastSuccess > 0
    ensures Clean(TriedsLoaded(h, s, rs).infos, AddressesIn(before + rs))
  {
    hide Bump, Put, Clean;
    if rs == [] {
      assert before + rs == before;
    } else {
      var n := |rs| - 1;
      var front, r := before + rs[..n], rs[n];
      assert before + rs == front + [r];
      assert forall i :: 0 <= i < |front| ==> (before + rs)[i] == front[i];
      TriedsClean(h, s, before, rs[..n]);
      TriedsLoadedTotal(h, s, rs[..n]);
      AddressesMore(front, r);
      var s1 := TriedsLoaded(h, s, rs[..n]);
      assert r.addr !in AddressesIn(front) by {
        assert (before + rs)[|front|] == r;
      }
      CleanMore(s1.infos, AddressesIn(front), s1.idCount, InfoOf(r, |s1.random|, true));
      CleanAnyway(s1.infos, AddressesIn(front), r.addr);
    }
  }

  lemma CleanAnyway(infos: Infos, from: set<Service>, a: Service)
    requires Clean(infos, from)
    ensures Clean(infos, from + {a})
  {
  }

  lemma ReferencedClean(s: Book, s': Book, from: set<Service>)
    requires Referenced(s, s') && Clean(s.infos, from)
    ensures Sound(s')
  {
    forall id | id in s'.infos ensures SoundEntry(s'.infos, id) {
      assert SameButReferences(s.infos[id], s'.infos[id]) && SoundEntry(s.infos, id);
      forall other | other in s'.infos && s'.infos[other].addr == s'.infos[id].addr ensures other == id {
        assert SameButReferences(s.infos[other], s'.infos[other]);
      }
    }
  }

  /** Such a file is sound under every key and asmap. */
  lemma WellKeptIsSound(h: Hasher, file: File, asmap: int)
    requires WellKept(file)
    ensures Sound(Loaded(h, file, asmap))
  {
    hide NewsLoaded, TriedsLoaded, Entries, Referenced, Sound, Clean, AddressesIn;
    var start := Blank().(nNew := |file.news|, nTried := |file.trieds|);
    var news, rs := NewsLoaded(h, start, file.news), file.news + file.trieds;
    assert forall i :: 0 <= i < |file.news| ==> rs[i] == file.news[i];
    assert forall i :: 0 <= i < |file.trieds| ==> rs[|file.news| + i] == file.trieds[i];
    NewsLoadedTables(h, start, file.news);
    NewsLoadedTotal(h, start, file.news);
    NewsClean(h, start, file.news);
    TriedsClean(h, news, file.news, file.trieds);
    RecordsLoadable(h, file, Restorable(file, asmap));
    ReferencedClean(RecordsLoaded(h, file), Loaded(h, file, asmap), AddressesIn(rs));
  }

  lemma LoadedShaped(h: Hasher, s: Book)
    requires Loading(h, s)
    ensures Shaped(s.tried, TRIED_BUCKETS) && Shaped(s.news, NEW_BUCKETS)
  {
  }

  lemma ReadingOn(h: Hasher, s: Book, r: Record)
    ensures NewLoaded(h, s.(idCount := 0), r).(idCount := 0) == NewLoaded(h, s, r).(idCount := 0)
    ensures |NewLoaded(h, s, r).random| == |s.random| + 1
  {
  }

  lemma LateSubtraction(h: Hasher, s: Book, n: int, r: Record)
    requires Shaped(s.tried, TRIED_BUCKETS)
    ensures TriedLoaded(h, s.(nTried := s.nTried - n), r) ==
            TriedLoaded(h, s, r).(nTried := TriedLoaded(h, s, r).nTried - n)
    ensures Shaped(TriedLoaded(h, s, r).tried, TRIED_BUCKETS)
  {
  }

  lemma NoCollisions(h: Hasher, s: Book)
    requires Shaped(s.tried, TRIED_BUCKETS)
    ensures Colliding(h, s, {})
  {
  }

  // ---------------------------------------------------------------- writing

  /** The order in which mapInfo happens to be iterated. */
  ghost predicate Lists(infos: Infos, order: seq<int>) {
    && (forall id :: id in infos <==> id in order)
    && (forall i, j :: 0 <= i < j < |order| ==> order[i] != order[j])
  }

  predicate Goes(info: AddrInfo, tried: bool) {
    if tried then info.inTried else info.refCount != 0
  }

  /** The entries of one table, in that order. */
  function Picked(infos: Infos, order: seq<int>, tried: bool): seq<int>
    requires forall i :: 0 <= i < |order| ==> order[i] in infos
  {
    if order == [] then []
    else
      var (rest, last) := (Picked(infos, order[..|order| - 1], tried), order[|order| - 1]);
      if Goes(infos[last], tried) then rest + [last] else rest
  }

  function Records(infos: Infos, ids: seq<int>): (rs: seq<Record>)
    requires forall i :: 0 <= i < |ids| ==> ids[i] in infos
    ensures |rs| == |ids| && forall i :: 0 <= i < |ids| ==> rs[i] == RecordOf(infos[ids[i]])
  {
    if ids == [] then [] else Records(infos, ids[..|ids| - 1]) + [RecordOf(infos[ids[|ids| - 1]])]
  }

  function IndexIn(ids: seq<int>, id: int): (i: int)
    ensures id in ids ==> 0 <= i < |ids| && ids[i] == id
  {
    if ids == [] then -1 else if ids[|ids| - 1] == id then |ids| - 1 else IndexIn(ids[..|ids| - 1], id)
  }

  function SavedRow(row: seq<int>, ids: seq<int>): seq<int> {
    if row == [] then []
    else
      var (rest, last) := (SavedRow(row[..|row| - 1], ids), row[|row| - 1]);
      if last != EMPTY then rest + [IndexIn(ids, last)] else rest
  }

  function SavedRows(rows: seq<seq<int>>, ids: seq<int>): (r: seq<seq<int>>)
    ensures |r| == |rows| && forall b :: 0 <= b < |rows| ==> r[b] == SavedRow(rows[b], ids)
  {
    if rows == [] then [] else SavedRows(rows[..|rows| - 1], ids) + [SavedRow(rows[|rows| - 1], ids)]
  }

  function Saved(s: Book, order: seq<int>, asmap: int): File
    requires forall i :: 0 <= i < |order| ==> order[i] in s.infos
  {
    PickedAreEntries(s.infos, order, false);
    PickedAreEntries(s.infos, order, true);
    var news := Picked(s.infos, order, false);
    File(FILE_FORMAT, INCOMPATIBILITY_BASE + FILE_FORMAT,
         Records(s.infos, news), Records(s.infos, Picked(s.infos, order, true)), SavedRows(s.news, news), asmap)
  }

  lemma {:induction false} PickedAreEntries(infos: Infos, order: seq<int>, tried: bool)
    requires forall i :: 0 <= i < |order| ==> order[i] in infos
    ensures var ids := Picked(infos, order, tried);
            && (forall i :: 0 <= i < |ids| ==> ids[i] in infos && Goes(infos[ids[i]], tried))
            && (forall id :: id in ids <==> id in order && Goes(infos[id], tried))
  {
    if order != [] {
      var n := |order| - 1;
      PickedAreEntries(infos, order[..n], tried);
      var rest, ids := Picked(infos, order[..n], tried), Picked(infos, order, tried);
      assert order == order[..n] + [order[n]];
      forall i | 0 <= i < |ids| ensures ids[i] in infos && Goes(infos[ids[i]], tried) {
        assert i < |rest| ==> ids[i] == rest[i];
      }
    }
  }

  lemma {:induction false} PickedDistinct(infos: Infos, order: seq<int>, tried: bool)
    requires forall i :: 0 <= i < |order| ==> order[i] in infos
    requires forall i, j :: 0 <= i < j < |order| ==> order[i] != order[j]
    ensures var ids := Picked(infos, order, tried);
            forall i, j :: 0 <= i < j < |ids| ==> ids[i] != ids[j]
  {
    if order != [] {
      var n := |order| - 1;
      PickedDistinct(infos, order[..n], tried);
      PickedAreEntries(infos, order[..n], tried);
      var rest := Picked(infos, order[..n], tried);
      forall i | 0 <= i < |rest| ensures rest[i] != order[n] {
        var id := rest[i];
        assert id in rest;
        assert id in order[..n];
      }
    }
  }

  // ---------------------------------------------------------------- writing, step by step

  function PickedRecords(infos: Infos, order: seq<int>, tried: bool): seq<Record>
    requires forall i :: 0 <= i < |order| ==> order[i] in infos
  {
    PickedAreEntries(infos, order, tried);
    Records(infos, Picked(infos, order, tried))
  }

  /** Every listed id is known by its place in the list. */
  ghost predicate Numbered(numbers: map<int, int>, ids: seq<int>) {
    forall id :: id in ids ==> id in numbers && numbers[id] == IndexIn(ids, id)
  }

  lemma PickingStarts(infos: Infos, tried: bool)
    ensures Picked(infos, [], tried) == [] && PickedRecords(infos, [], tried) == []
    ensures Numbered(map[], Picked(infos, [], tried))
  {
  }

  lemma PickedOneMore(infos: Infos, order: seq<int>, i: nat, tried: bool)
    requires forall k :: 0 <= k < |order| ==> order[k] in infos
    requires i < |order|
    ensures Picked(infos, order[..i + 1], tried) ==
            if Goes(infos[order[i]], tried) then Picked(infos, order[..i], tried) + [order[i]]
            else Picked(infos, order[..i], tried)
    ensures PickedRecords(infos, order[..i + 1], tried) ==
            if Goes(infos[order[i]], tried) then PickedRecords(infos, order[..i], tried) + [RecordOf(infos[order[i]])]
            else PickedRecords(infos, order[..i], tried)
  {
    assert order[..i + 1][..i] == order[..i];
    var ids := Picked(infos, order[..i], tried);
    assert (ids + [order[i]])[..|ids|] == ids;
    PickedAreEntries(infos, order[..i + 1], tried);
  }

  lemma NumberedMore(numbers: map<int, int>, ids: seq<int>, id: int)
    requires Numbered(numbers, ids) && id !in ids
    ensures Numbered(numbers[id := |ids|], ids) && Numbered(numbers[id := |ids|], ids + [id])
  {
    var all := ids + [id];
    assert all[..|ids|] == ids;
  }

  /** The counters announce enough room: neither assertion of the writer fails. */
  lemma RoomForMore(h: Hasher, s: Book, order: seq<int>, i: nat, tried: bool)
    requires BookOk(h, s, {}, {}) && Lists(s.infos, order) && i < |order|
    requires forall k :: 0 <= k < |order| ==> order[k] in s.infos
    requires Goes(s.infos[order[i]], tried)
    ensures |Picked(s.infos, order[..i], tried)| < if tried then s.nTried else s.nNew
    ensures order[i] !in Picked(s.infos, order[..i], tried)
  {
    hide Indexed, Shuffled;
    var front, id := order[..i], order[i];
    var ids := Picked(s.infos, front, tried);
    PickedAreEntries(s.infos, front, tried);
    PickedDistinct(s.infos, front, tried);
    assert id !in front;
    var all := if tried then TriedIds(s.infos) else NewIds(s.infos, {});
    GoesByTable(h, s);
    hide TriedOk, NewOk;
    forall x | x in AddrCheck.Elements(ids) ensures x in all && x != id {
      assert x in ids;
      assert x in front;
    }
    AddrCheck.DistinctSize(ids);
    assert id in all;
    SubsetSize(AddrCheck.Elements(ids), all - {id});
  }

  lemma GoesByTable(h: Hasher, s: Book)
    requires TriedOk(h, s.infos, s.tried) && NewOk(h, s.infos, s.news, {})
    ensures forall id, tried :: id in s.infos ==> (Goes(s.infos[id], tried) <==> s.infos[id].inTried == tried)
  {
  }

  lemma PickingOn(h: Hasher, s: Book, order: seq<int>, i: nat, tried: bool, numbers: map<int, int>)
    requires BookOk(h, s, {}, {}) && Lists(s.infos, order) && i < |order|
    requires forall k :: 0 <= k < |order| ==> order[k] in s.infos
    ensures var id, ids := order[i], Picked(s.infos, order[..i], tried);
            var ids', goes := Picked(s.infos, order[..i + 1], tried), Goes(s.infos[id], tried);
            && ids' == (if goes then ids + [id] else ids) && (goes ==> |ids| < if tried then s.nTried else s.nNew)
            && PickedRecords(s.infos, order[..i + 1], tried) ==
               (if goes then PickedRecords(s.infos, order[..i], tried) + [RecordOf(s.infos[id])]
                else PickedRecords(s.infos, order[..i], tried))
            && (Numbered(numbers, ids) ==> Numbered(numbers[id := |ids|], ids'))
  {
    hide BookOk, Picked, Numbered, PickedRecords;
    PickedOneMore(s.infos, order, i, tried);
    if Goes(s.infos[order[i]], tried) {
      RoomForMore(h, s, order, i, tried);
    }
    NotPickedYet(s.infos, order, i, tried);
    if Numbered(numbers, Picked(s.infos, order[..i], tried)) {
      NumberedMore(numbers, Picked(s.infos, order[..i], tried), order[i]);
    }
  }

  lemma NotPickedYet(infos: Infos, order: seq<int>, i: nat, tried: bool)
    requires Lists(infos, order) && i < |order| && forall k :: 0 <= k < |order| ==> order[k] in infos
    ensures order[i] !in Picked(infos, order[..i], tried)
  {
    PickedAreEntries(infos, order[..i], tried);
    var id := order[i];
    assert id !in order[..i];
  }

  lemma SavedLists(s: Book, order: seq<int>, asmap: int)
    requires forall i :: 0 <= i < |order| ==> order[i] in s.infos
    ensures var file := Saved(s, order, asmap);
            && file.news == PickedRecords(s.infos, order, false) && file.trieds == PickedRecords(s.infos, order, true)
            && file.buckets == SavedRows(s.news, Picked(s.infos, order, false))
  {
  }

  lemma SavedNumbers(h: Hasher, s: Book, order: seq<int>)
    requires BookOk(h, s, {}, {}) && Lists(s.infos, order) && forall k :: 0 <= k < |order| ==> order[k] in s.infos
    ensures Shaped(s.news, NEW_BUCKETS)
    ensures forall b, i :: 0 <= b < NEW_BUCKETS && 0 <= i < BUCKET_SIZE && s.news[b][i] != EMPTY ==>
              s.news[b][i] in Picked(s.infos, order, false)
    ensures SavedRows([], Picked(s.infos, order, false)) == []
  {
    hide Indexed, Shuffled, Counted;
    PickedAreEntries(s.infos, order, false);
    GoesByTable(h, s);
    forall b, i | 0 <= b < NEW_BUCKETS && 0 <= i < BUCKET_SIZE && s.news[b][i] != EMPTY
      ensures s.news[b][i] in Picked(s.infos, order, false)
    {
      var id := s.news[b][i];
      assert NewCellOk(h, s.infos, b, i, id);
      assert id in order;
    }
  }

  lemma SavedRowsMore(rows: Table, b: nat, ids: seq<int>)
    requires b < |rows|
    ensures SavedRows(rows[..b + 1], ids) == SavedRows(rows[..b], ids) + [SavedRow(rows[b], ids)]
  {
    assert rows[..b + 1][..b] == rows[..b];
  }
}
