/**
 The address manager on values: addresses and what is known about them, the two tables of
 buckets, and the consistency of each of the redundant structures.
 */
module AddrModel {
  import opened Common

  const TRIED_BUCKETS: nat := 256
  const NEW_BUCKETS: nat := 1024
  const BUCKET_SIZE: nat := 64
  const NEW_BUCKETS_PER_ADDRESS: nat := 8
  const SET_TRIED_COLLISION_SIZE: nat := 10
  const EMPTY: int := -1

  /** An address with its port, and an address alone (a source). */
  datatype Service = Service(ip: int, port: nat)

  /** An announced address. Times are seconds since the epoch. */
  datatype Address = Address(service: Service, time: int, services: set<int>)

  datatype AddrInfo = AddrInfo(
    addr: Service, time: int, services: set<int>, source: int,
    lastTry: int, lastCountAttempt: int, lastSuccess: int, attempts: int,
    refCount: int, inTried: bool, randomPos: int)

  datatype NewTriedCount = NewTriedCount(nNew: int, nTried: int)

  type Infos = map<int, AddrInfo>
  type Table = seq<seq<int>>

  /** The keyed hashes, the network classes and the address filters, all taken from elsewhere. */
  datatype Hasher = Hasher(
    triedHash: Service -> nat,
    newHash: (Service, int) -> nat,
    positionHash: (bool, nat, Service) -> nat,
    networkOf: int -> int,
    valid: Service -> bool,
    reserved: Service -> bool)
  {
    /** A valid address outside the ranges that are set aside. */
    predicate Routable(a: Service) { valid(a) && !reserved(a) }

    function TriedBucket(a: Service): (b: nat)
      ensures b < TRIED_BUCKETS
    { triedHash(a) % TRIED_BUCKETS }

    function TriedPos(a: Service): (p: nat)
      ensures p < BUCKET_SIZE
    { positionHash(false, TriedBucket(a), a) % BUCKET_SIZE }

    function NewBucket(a: Service, source: int): (b: nat)
      ensures b < NEW_BUCKETS
    { newHash(a, source) % NEW_BUCKETS }

    function NewPos(a: Service, bucket: nat): (p: nat)
      ensures p < BUCKET_SIZE
    { positionHash(true, bucket, a) % BUCKET_SIZE }

    function Network(a: Service): int { networkOf(a.ip) }
  }

  predicate Shaped(t: Table, buckets: nat) {
    |t| == buckets && forall b :: 0 <= b < |t| ==> |t[b]| == BUCKET_SIZE
  }

  function Put(t: Table, b: nat, p: nat, id: int): Table
    requires b < |t| && p < |t[b]|
  {
    t[b := t[b][p := id]]
  }

  /** The new buckets that hold an id, each at the one position its address has there. */
  function Buckets(h: Hasher, t: Table, id: int, a: Service): set<nat>
    requires Shaped(t, NEW_BUCKETS)
  {
    set b: nat | b < NEW_BUCKETS && t[b][h.NewPos(a, b)] == id
  }

  lemma BucketsPut(h: Hasher, t: Table, b: nat, p: nat, x: int, id: int, a: Service)
    requires Shaped(t, NEW_BUCKETS) && b < NEW_BUCKETS && p < BUCKET_SIZE
    ensures Shaped(Put(t, b, p, x), NEW_BUCKETS)
    ensures Buckets(h, Put(t, b, p, x), id, a) ==
            if h.NewPos(a, b) != p then Buckets(h, t, id, a)
            else if x == id then Buckets(h, t, id, a) + {b}
            else Buckets(h, t, id, a) - {b}
  {
  }

  // ---------------------------------------------------------------- what is known of one address

  const MINUTE := 60
  const HOUR := 60 * MINUTE
  const DAY := 24 * HOUR
  const HORIZON := 30 * DAY
  const RETRIES := 3
  const MAX_FAILURES := 10
  const MIN_FAIL := 7 * DAY
  const REPLACEMENT := 4 * HOUR
  const TEST_WINDOW := 40 * MINUTE

  /** The statistics are bad enough for the entry to be overwritten. */
  predicate IsTerrible(info: AddrInfo, now: int) {
    && now - info.lastTry > MINUTE
    && (info.time > now + 10 * MINUTE
        || now - info.time > HORIZON
        || (info.lastSuccess == 0 && info.attempts >= RETRIES)
        || (now - info.lastSuccess > MIN_FAIL && info.attempts >= MAX_FAILURES))
  }

  /** The age of an address after a new announcement of it. */
  function RefreshedTime(time: int, addr: Address, penalty: int, now: int): int {
    var interval := if now - addr.time < DAY then HOUR else DAY;
    if time < addr.time - interval - penalty then Max(0, addr.time - penalty) else time
  }

  /** What a new announcement changes in a known entry. */
  function Refreshed(info: AddrInfo, addr: Address, penalty: int, now: int): AddrInfo {
    info.(time := RefreshedTime(info.time, addr, penalty, now), services := info.services + addr.services)
  }

  // ---------------------------------------------------------------- the structures

  /** mapAddr and mapInfo invert each other, and ids come from the counter. */
  ghost predicate Indexed(infos: Infos, addrs: map<Service, int>, idCount: int) {
    && (forall id :: id in infos ==>
          0 <= id < idCount && infos[id].addr in addrs && addrs[infos[id].addr] == id)
    && (forall a :: a in addrs ==> addrs[a] in infos && infos[addrs[a]].addr == a)
  }

  /** vRandom and nRandomPos are inverse bijections onto the ids. */
  ghost predicate Shuffled(infos: Infos, random: seq<int>) {
    && (forall i :: 0 <= i < |random| ==> random[i] in infos && infos[random[i]].randomPos == i)
    && (forall id :: id in infos ==> 0 <= infos[id].randomPos < |random| && random[infos[id].randomPos] == id)
  }

  /** The tried cell that belongs to an address. */
  function TriedCell(h: Hasher, tried: Table, a: Service): int
    requires Shaped(tried, TRIED_BUCKETS)
  {
    tried[h.TriedBucket(a)][h.TriedPos(a)]
  }

  ghost predicate TriedCellOk(h: Hasher, infos: Infos, b: nat, p: nat, id: int) {
    && id in infos && infos[id].inTried
    && h.TriedBucket(infos[id].addr) == b && h.TriedPos(infos[id].addr) == p
  }

  /** Tried ids occupy exactly their own slot. */
  ghost predicate TriedOk(h: Hasher, infos: Infos, tried: Table) {
    && Shaped(tried, TRIED_BUCKETS)
    && (forall b: nat, p: nat :: b < TRIED_BUCKETS && p < BUCKET_SIZE && tried[b][p] != EMPTY ==>
          TriedCellOk(h, infos, b, p, tried[b][p]))
    && (forall id :: id in infos && infos[id].inTried ==>
          infos[id].refCount == 0 && TriedCell(h, tried, infos[id].addr) == id)
  }

  ghost predicate NewCellOk(h: Hasher, infos: Infos, b: nat, p: nat, id: int) {
    id in infos && !infos[id].inTried && h.NewPos(infos[id].addr, b) == p
  }

  /** Reference counts count new cells. `loose` ids are in no table at the moment. */
  ghost predicate NewOk(h: Hasher, infos: Infos, news: Table, loose: set<int>) {
    && Shaped(news, NEW_BUCKETS) && EMPTY !in infos
    && (forall b: nat, p: nat :: b < NEW_BUCKETS && p < BUCKET_SIZE && news[b][p] != EMPTY ==>
          NewCellOk(h, infos, b, p, news[b][p]))
    && (forall id :: id in infos ==> infos[id].refCount == |Buckets(h, news, id, infos[id].addr)|)
    && (forall id :: id in infos && !infos[id].inTried && id !in loose ==>
          1 <= infos[id].refCount <= NEW_BUCKETS_PER_ADDRESS)
    && (forall id :: id in loose ==> id in infos && !infos[id].inTried && infos[id].refCount == 0)
  }

  function NewIds(infos: Infos, uncounted: set<int>): set<int> {
    set id | id in infos && !infos[id].inTried && id !in uncounted
  }

  function TriedIds(infos: Infos): set<int> {
    set id | id in infos && infos[id].inTried
  }

  function On(h: Hasher, infos: Infos, ids: set<int>, net: int): set<int> {
    set id | id in ids && id in infos && h.Network(infos[id].addr) == net
  }

  function CountOn(counts: map<int, NewTriedCount>, net: int): NewTriedCount {
    if net in counts then counts[net] else NewTriedCount(0, 0)
  }

  /** The totals and the counters of every network; `uncounted` ids are in none of them. */
  ghost predicate Counted(h: Hasher, infos: Infos, uncounted: set<int>,
                          nNew: int, nTried: int, counts: map<int, NewTriedCount>) {
    && nNew == |NewIds(infos, uncounted)| && nTried == |TriedIds(infos)|
    && (forall net :: CountOn(counts, net).nNew == |On(h, infos, NewIds(infos, uncounted), net)| &&
                      CountOn(counts, net).nTried == |On(h, infos, TriedIds(infos), net)|)
  }

  ghost predicate TimesOk(infos: Infos) {
    forall id :: id in infos ==>
      infos[id].lastTry >= 0 && infos[id].lastSuccess >= 0 && (infos[id].inTried ==> infos[id].lastSuccess != 0)
  }

  // ---------------------------------------------------------------- counting

  /** Every id keeps its address. */
  ghost predicate SameAddresses(infos: Infos, infos': Infos, ids: set<int>) {
    forall id :: id in ids ==> id in infos && id in infos' && infos'[id].addr == infos[id].addr
  }

  lemma OnSame(h: Hasher, infos: Infos, infos': Infos, ids: set<int>, net: int)
    requires SameAddresses(infos, infos', ids)
    ensures On(h, infos', ids, net) == On(h, infos, ids, net)
  {
    forall id ensures id in On(h, infos', ids, net) <==> id in On(h, infos, ids, net) {}
  }

  lemma OnPlus(h: Hasher, infos: Infos, infos': Infos, ids: set<int>, id: int, net: int)
    requires SameAddresses(infos, infos', ids) && id !in ids && id in infos'
    ensures |On(h, infos', ids + {id}, net)| ==
            |On(h, infos, ids, net)| + if h.Network(infos'[id].addr) == net then 1 else 0
  {
    OnSame(h, infos, infos', ids, net);
    var on, on' := On(h, infos, ids, net), On(h, infos', ids + {id}, net);
    if h.Network(infos'[id].addr) == net {
      assert on' == on + {id};
    } else {
      assert on' == on;
    }
  }

  function Bump(counts: map<int, NewTriedCount>, net: int, dNew: int, dTried: int): map<int, NewTriedCount> {
    var c := CountOn(counts, net);
    counts[net := NewTriedCount(c.nNew + dNew, c.nTried + dTried)]
  }

  lemma CountedSame(h: Hasher, infos: Infos, infos': Infos, un: set<int>, un': set<int>,
                    nNew: int, nTried: int, counts: map<int, NewTriedCount>)
    requires Counted(h, infos, un, nNew, nTried, counts)
    requires NewIds(infos', un') == NewIds(infos, un) && TriedIds(infos') == TriedIds(infos)
    requires SameAddresses(infos, infos', NewIds(infos, un) + TriedIds(infos))
    ensures Counted(h, infos', un', nNew, nTried, counts)
  {
    forall net ensures CountOn(counts, net).nNew == |On(h, infos', NewIds(infos', un'), net)| &&
                       CountOn(counts, net).nTried == |On(h, infos', TriedIds(infos'), net)|
    {
      OnSame(h, infos, infos', NewIds(infos, un), net);
      OnSame(h, infos, infos', TriedIds(infos), net);
    }
  }

  /** One more new entry. */
  lemma CountedNewPlus(h: Hasher, infos: Infos, infos': Infos, un: set<int>, un': set<int>, id: int,
                       nNew: int, nTried: int, counts: map<int, NewTriedCount>)
    requires Counted(h, infos, un, nNew, nTried, counts)
    requires id in infos' && id !in NewIds(infos, un)
    requires NewIds(infos', un') == NewIds(infos, un) + {id} && TriedIds(infos') == TriedIds(infos)
    requires SameAddresses(infos, infos', NewIds(infos, un) + TriedIds(infos))
    ensures Counted(h, infos', un', nNew + 1, nTried, Bump(counts, h.Network(infos'[id].addr), 1, 0))
  {
    hide NewIds, TriedIds, On;
    var counts' := Bump(counts, h.Network(infos'[id].addr), 1, 0);
    forall net ensures CountOn(counts', net).nNew == |On(h, infos', NewIds(infos', un'), net)| &&
                       CountOn(counts', net).nTried == |On(h, infos', TriedIds(infos'), net)|
    {
      OnPlus(h, infos, infos', NewIds(infos, un), id, net);
      OnSame(h, infos, infos', TriedIds(infos), net);
    }
  }

  /** One new entry less; its counters were positive. */
  lemma CountedNewMinus(h: Hasher, infos: Infos, infos': Infos, un: set<int>, un': set<int>, id: int,
                        nNew: int, nTried: int, counts: map<int, NewTriedCount>)
    requires Counted(h, infos, un, nNew, nTried, counts)
    requires id in infos && id in NewIds(infos, un)
    requires NewIds(infos', un') == NewIds(infos, un) - {id} && TriedIds(infos') == TriedIds(infos)
    requires SameAddresses(infos, infos', NewIds(infos', un') + TriedIds(infos))
    ensures nNew >= 1 && CountOn(counts, h.Network(infos[id].addr)).nNew >= 1
    ensures Counted(h, infos', un', nNew - 1, nTried, Bump(counts, h.Network(infos[id].addr), -1, 0))
  {
    hide NewIds, TriedIds, On;
    var counts' := Bump(counts, h.Network(infos[id].addr), -1, 0);
    var ids := NewIds(infos', un');
    assert NewIds(infos, un) == ids + {id};
    assert |ids + {id}| == |ids| + 1;
    forall net ensures CountOn(counts', net).nNew == |On(h, infos', NewIds(infos', un'), net)| &&
                       CountOn(counts', net).nTried == |On(h, infos', TriedIds(infos'), net)|
    {
      OnPlus(h, infos', infos, ids, id, net);
      OnSame(h, infos, infos', TriedIds(infos), net);
    }
    OnPlus(h, infos', infos, ids, id, h.Network(infos[id].addr));
  }

  lemma CountedTriedPlus(h: Hasher, infos: Infos, infos': Infos, un: set<int>, un': set<int>, id: int,
                         nNew: int, nTried: int, counts: map<int, NewTriedCount>)
    requires Counted(h, infos, un, nNew, nTried, counts)
    requires id in infos' && id !in TriedIds(infos)
    requires NewIds(infos', un') == NewIds(infos, un) && TriedIds(infos') == TriedIds(infos) + {id}
    requires SameAddresses(infos, infos', NewIds(infos, un) + TriedIds(infos))
    ensures Counted(h, infos', un', nNew, nTried + 1, Bump(counts, h.Network(infos'[id].addr), 0, 1))
  {
    hide NewIds, TriedIds, On;
    var counts' := Bump(counts, h.Network(infos'[id].addr), 0, 1);
    forall net ensures CountOn(counts', net).nNew == |On(h, infos', NewIds(infos', un'), net)| &&
                       CountOn(counts', net).nTried == |On(h, infos', TriedIds(infos'), net)|
    {
      OnSame(h, infos, infos', NewIds(infos, un), net);
      OnPlus(h, infos, infos', TriedIds(infos), id, net);
    }
  }

  lemma CountedTriedMinus(h: Hasher, infos: Infos, infos': Infos, un: set<int>, un': set<int>, id: int,
                          nNew: int, nTried: int, counts: map<int, NewTriedCount>)
    requires Counted(h, infos, un, nNew, nTried, counts)
    requires id in infos && id in TriedIds(infos)
    requires NewIds(infos', un') == NewIds(infos, un) && TriedIds(infos') == TriedIds(infos) - {id}
    requires SameAddresses(infos, infos', NewIds(infos, un) + TriedIds(infos'))
    ensures nTried >= 1 && CountOn(counts, h.Network(infos[id].addr)).nTried >= 1
    ensures Counted(h, infos', un', nNew, nTried - 1, Bump(counts, h.Network(infos[id].addr), 0, -1))
  {
    hide NewIds, TriedIds, On;
    var counts' := Bump(counts, h.Network(infos[id].addr), 0, -1);
    var ids := TriedIds(infos');
    assert TriedIds(infos) == ids + {id};
    assert |ids + {id}| == |ids| + 1;
    forall net ensures CountOn(counts', net).nNew == |On(h, infos', NewIds(infos', un'), net)| &&
                       CountOn(counts', net).nTried == |On(h, infos', TriedIds(infos'), net)|
    {
      OnSame(h, infos, infos', NewIds(infos, un), net);
      OnPlus(h, infos', infos, ids, id, net);
    }
    OnPlus(h, infos', infos, ids, id, h.Network(infos[id].addr));
  }

  lemma EmptyBookCounted(h: Hasher)
    ensures Counted(h, map[], {}, 0, 0, map[])
  {
    assert NewIds(map[], {}) == {} && TriedIds(map[]) == {};
    forall net ensures On(h, map[], {}, net) == {} {}
  }

  // ---------------------------------------------------------------- single updates

  /** Nothing changed but fields that no table or counter depends on. */
  ghost predicate SamePlaces(infos: Infos, infos': Infos) {
    && infos'.Keys == infos.Keys
    && forall id :: id in infos ==>
         && infos'[id].addr == infos[id].addr && infos'[id].refCount == infos[id].refCount
         && infos'[id].inTried == infos[id].inTried && infos'[id].source == infos[id].source
  }

  lemma SamePlacesTables(h: Hasher, infos: Infos, infos': Infos, tried: Table, news: Table, loose: set<int>)
    requires SamePlaces(infos, infos') && TriedOk(h, infos, tried) && NewOk(h, infos, news, loose)
    ensures TriedOk(h, infos', tried) && NewOk(h, infos', news, loose)
  {
    forall b: nat, p: nat | b < TRIED_BUCKETS && p < BUCKET_SIZE && tried[b][p] != EMPTY
      ensures TriedCellOk(h, infos', b, p, tried[b][p])
    {
      assert TriedCellOk(h, infos, b, p, tried[b][p]);
    }
    forall b: nat, p: nat | b < NEW_BUCKETS && p < BUCKET_SIZE && news[b][p] != EMPTY
      ensures NewCellOk(h, infos', b, p, news[b][p])
    {
      assert NewCellOk(h, infos, b, p, news[b][p]);
    }
  }

  lemma SamePlacesKeep(h: Hasher, infos: Infos, infos': Infos, addrs: map<Service, int>, idCount: int,
                       tried: Table, news: Table, loose: set<int>)
    requires SamePlaces(infos, infos')
    requires Indexed(infos, addrs, idCount) && TriedOk(h, infos, tried) && NewOk(h, infos, news, loose)
    ensures Indexed(infos', addrs, idCount) && TriedOk(h, infos', tried) && NewOk(h, infos', news, loose)
  {
    SamePlacesTables(h, infos, infos', tried, news, loose);
  }

  lemma SamePlacesCounted(h: Hasher, infos: Infos, infos': Infos, un: set<int>,
                          nNew: int, nTried: int, counts: map<int, NewTriedCount>)
    requires SamePlaces(infos, infos') && Counted(h, infos, un, nNew, nTried, counts)
    ensures Counted(h, infos', un, nNew, nTried, counts)
  {
    forall id ensures id in NewIds(infos', un) <==> id in NewIds(infos, un) {}
    forall id ensures id in TriedIds(infos') <==> id in TriedIds(infos) {}
    CountedSame(h, infos, infos', un, un, nNew, nTried, counts);
  }

  /** An id that no table holds may join or leave mapInfo. */
  lemma CreateIndexed(infos: Infos, addrs: map<Service, int>, idCount: int, random: seq<int>, info: AddrInfo)
    requires Indexed(infos, addrs, idCount) && Shuffled(infos, random)
    requires info.addr !in addrs && idCount >= 0 && info.randomPos == |random|
    ensures Indexed(infos[idCount := info], addrs[info.addr := idCount], idCount + 1)
    ensures Shuffled(infos[idCount := info], random + [idCount])
  {
  }

  lemma CreateInTables(h: Hasher, infos: Infos, tried: Table, news: Table, loose: set<int>, id: int, info: AddrInfo)
    requires TriedOk(h, infos, tried) && NewOk(h, infos, news, loose)
    requires id !in infos && id != EMPTY && !info.inTried && info.refCount == 0
    ensures TriedOk(h, infos[id := info], tried) && NewOk(h, infos[id := info], news, loose + {id})
  {
    var infos' := infos[id := info];
    forall b: nat, p: nat | b < TRIED_BUCKETS && p < BUCKET_SIZE && tried[b][p] != EMPTY
      ensures TriedCellOk(h, infos', b, p, tried[b][p])
    {
      assert TriedCellOk(h, infos, b, p, tried[b][p]);
    }
    forall b: nat, p: nat | b < NEW_BUCKETS && p < BUCKET_SIZE && news[b][p] != EMPTY
      ensures NewCellOk(h, infos', b, p, news[b][p])
    {
      assert NewCellOk(h, infos, b, p, news[b][p]);
    }
    NoCells(h, infos, news, loose, id, info.addr);
  }

  lemma NoCells(h: Hasher, infos: Infos, news: Table, loose: set<int>, id: int, a: Service)
    requires NewOk(h, infos, news, loose) && id !in infos && id != EMPTY
    ensures Buckets(h, news, id, a) == {}
  {
    forall b: nat | b < NEW_BUCKETS ensures news[b][h.NewPos(a, b)] != id {
      assert news[b][h.NewPos(a, b)] != EMPTY ==> NewCellOk(h, infos, b, h.NewPos(a, b), news[b][h.NewPos(a, b)]);
    }
  }

  lemma DeleteIndexed(infos: Infos, addrs: map<Service, int>, idCount: int, random: seq<int>, id: int)
    requires Indexed(infos, addrs, idCount) && Shuffled(infos, random)
    requires id in infos && random != [] && random[|random| - 1] == id
    ensures Indexed(infos - {id}, addrs - {infos[id].addr}, idCount)
    ensures Shuffled(infos - {id}, random[..|random| - 1])
  {
  }

  lemma DeleteInTables(h: Hasher, infos: Infos, tried: Table, news: Table, loose: set<int>, id: int)
    requires TriedOk(h, infos, tried) && NewOk(h, infos, news, loose) && id in loose
    ensures TriedOk(h, infos - {id}, tried) && NewOk(h, infos - {id}, news, loose - {id})
  {
    var infos' := infos - {id};
    forall b: nat, p: nat | b < TRIED_BUCKETS && p < BUCKET_SIZE && tried[b][p] != EMPTY
      ensures TriedCellOk(h, infos', b, p, tried[b][p])
    {
      assert TriedCellOk(h, infos, b, p, tried[b][p]);
    }
    forall b: nat, p: nat | b < NEW_BUCKETS && p < BUCKET_SIZE && news[b][p] != EMPTY
      ensures NewCellOk(h, infos', b, p, news[b][p])
    {
      assert NewCellOk(h, infos, b, p, news[b][p]);
      assert b !in Buckets(h, news, id, infos[id].addr);
    }
  }

  /** Swapping two places of vRandom and the two positions that point at them. */
  function Swapped(random: seq<int>, i: nat, j: nat): seq<int>
    requires i < |random| && j < |random|
  {
    random[i := random[j]][j := random[i]]
  }

  function SwappedInfos(infos: Infos, random: seq<int>, i: nat, j: nat): Infos
    requires i < |random| && j < |random| && random[i] in infos && random[j] in infos
  {
    infos[random[i] := infos[random[i]].(randomPos := j)][random[j] := infos[random[j]].(randomPos := i)]
  }

  lemma SwapShuffled(infos: Infos, random: seq<int>, i: nat, j: nat)
    requires Shuffled(infos, random) && i < |random| && j < |random| && i != j
    ensures Shuffled(SwappedInfos(infos, random, i, j), Swapped(random, i, j))
    ensures SamePlaces(infos, SwappedInfos(infos, random, i, j))
  {
  }

  /** Emptying or filling a new cell changes the buckets of the id concerned only. */
  lemma OtherBuckets(h: Hasher, infos: Infos, news: Table, loose: set<int>, b: nat, p: nat, x: int, j: int)
    requires NewOk(h, infos, news, loose) && b < NEW_BUCKETS && p < BUCKET_SIZE && j in infos && news[b][p] != j
    requires x != j
    ensures Buckets(h, Put(news, b, p, x), j, infos[j].addr) == Buckets(h, news, j, infos[j].addr)
  {
    BucketsPut(h, news, b, p, x, j, infos[j].addr);
    if h.NewPos(infos[j].addr, b) == p {
      assert b !in Buckets(h, news, j, infos[j].addr);
    }
  }

  lemma ClearedCount(h: Hasher, infos: Infos, news: Table, loose: set<int>, b: nat, p: nat)
    requires NewOk(h, infos, news, loose) && b < NEW_BUCKETS && p < BUCKET_SIZE && news[b][p] != EMPTY
    ensures var id := news[b][p];
            && id in infos && !infos[id].inTried && h.NewPos(infos[id].addr, b) == p && infos[id].refCount >= 1
            && |Buckets(h, Put(news, b, p, EMPTY), id, infos[id].addr)| == infos[id].refCount - 1
  {
    var id := news[b][p];
    assert NewCellOk(h, infos, b, p, id);
    assert b in Buckets(h, news, id, infos[id].addr);
    BucketsPut(h, news, b, p, EMPTY, id, infos[id].addr);
  }

  lemma FilledCount(h: Hasher, infos: Infos, news: Table, loose: set<int>, b: nat, p: nat, id: int)
    requires NewOk(h, infos, news, loose) && b < NEW_BUCKETS && p < BUCKET_SIZE && news[b][p] == EMPTY
    requires id in infos && h.NewPos(infos[id].addr, b) == p
    ensures |Buckets(h, Put(news, b, p, id), id, infos[id].addr)| == infos[id].refCount + 1
  {
    assert b !in Buckets(h, news, id, infos[id].addr);
    BucketsPut(h, news, b, p, id, id, infos[id].addr);
  }

  /** A cell that is emptied or given to an entry of new, whose reference count may change. */
  lemma CellsStayOk(h: Hasher, infos: Infos, news: Table, loose: set<int>, b: nat, p: nat, x: int, id: int, n: int)
    requires NewOk(h, infos, news, loose) && b < NEW_BUCKETS && p < BUCKET_SIZE && id in infos && !infos[id].inTried
    requires x == EMPTY || (x == id && h.NewPos(infos[id].addr, b) == p)
    ensures var (news', infos') := (Put(news, b, p, x), infos[id := infos[id].(refCount := n)]);
            && Shaped(news', NEW_BUCKETS) && EMPTY !in infos'
            && forall c: nat, q: nat :: c < NEW_BUCKETS && q < BUCKET_SIZE && news'[c][q] != EMPTY ==>
                 NewCellOk(h, infos', c, q, news'[c][q])
  {
    var news', infos' := Put(news, b, p, x), infos[id := infos[id].(refCount := n)];
    forall c: nat, q: nat | c < NEW_BUCKETS && q < BUCKET_SIZE && news'[c][q] != EMPTY
      ensures NewCellOk(h, infos', c, q, news'[c][q])
    {
      assert (c == b && q == p) || NewCellOk(h, infos, c, q, news[c][q]);
    }
  }

  /** Emptying a new cell takes one reference from its id. */
  lemma ClearCellKeeps(h: Hasher, infos: Infos, news: Table, loose: set<int>, b: nat, p: nat)
    requires NewOk(h, infos, news, loose) && b < NEW_BUCKETS && p < BUCKET_SIZE && news[b][p] != EMPTY
    ensures var id := news[b][p];
            && id in infos && !infos[id].inTried && infos[id].refCount >= 1 && id !in loose
            && NewOk(h, infos[id := infos[id].(refCount := infos[id].refCount - 1)], Put(news, b, p, EMPTY),
                     if infos[id].refCount == 1 then loose + {id} else loose)
  {
    hide Buckets, Put;
    var id := news[b][p];
    ClearedCount(h, infos, news, loose, b, p);
    CellsStayOk(h, infos, news, loose, b, p, EMPTY, id, infos[id].refCount - 1);
    forall j | j in infos && j != id
      ensures Shaped(Put(news, b, p, EMPTY), NEW_BUCKETS)
      ensures Buckets(h, Put(news, b, p, EMPTY), j, infos[j].addr) == Buckets(h, news, j, infos[j].addr)
    {
      OtherBuckets(h, infos, news, loose, b, p, EMPTY, j);
    }
  }

  /** Filling an empty new cell gives one reference to an id whose position it is. */
  lemma FillCellKeeps(h: Hasher, infos: Infos, news: Table, loose: set<int>, b: nat, p: nat, id: int)
    requires NewOk(h, infos, news, loose) && b < NEW_BUCKETS && p < BUCKET_SIZE && news[b][p] == EMPTY
    requires id in infos && !infos[id].inTried && h.NewPos(infos[id].addr, b) == p
    requires infos[id].refCount < NEW_BUCKETS_PER_ADDRESS
    ensures NewOk(h, infos[id := infos[id].(refCount := infos[id].refCount + 1)], Put(news, b, p, id), loose - {id})
  {
    hide Buckets, Put;
    FilledCount(h, infos, news, loose, b, p, id);
    CellsStayOk(h, infos, news, loose, b, p, id, id, infos[id].refCount + 1);
    forall j | j in infos && j != id
      ensures Shaped(Put(news, b, p, id), NEW_BUCKETS)
      ensures Buckets(h, Put(news, b, p, id), j, infos[j].addr) == Buckets(h, news, j, infos[j].addr)
    {
      OtherBuckets(h, infos, news, loose, b, p, id, j);
    }
  }

  /** The reference counts of non-tried entries do not matter to the tried table. */
  lemma RefCountTriedOk(h: Hasher, infos: Infos, tried: Table, id: int, n: int)
    requires TriedOk(h, infos, tried) && id in infos && !infos[id].inTried
    ensures TriedOk(h, infos[id := infos[id].(refCount := n)], tried)
  {
    var infos' := infos[id := infos[id].(refCount := n)];
    forall b: nat, p: nat | b < TRIED_BUCKETS && p < BUCKET_SIZE && tried[b][p] != EMPTY
      ensures TriedCellOk(h, infos', b, p, tried[b][p])
    {
      assert TriedCellOk(h, infos, b, p, tried[b][p]);
    }
  }

  /** Taking an entry out of its tried slot leaves it loose. */
  lemma LeaveTried(h: Hasher, infos: Infos, tried: Table, news: Table, loose: set<int>, b: nat, p: nat)
    requires TriedOk(h, infos, tried) && NewOk(h, infos, news, loose)
    requires b < TRIED_BUCKETS && p < BUCKET_SIZE && tried[b][p] != EMPTY
    ensures var id := tried[b][p];
            && id in infos && infos[id].inTried && infos[id].refCount == 0
            && h.TriedBucket(infos[id].addr) == b && h.TriedPos(infos[id].addr) == p
            && var infos' := infos[id := infos[id].(inTried := false)];
               TriedOk(h, infos', Put(tried, b, p, EMPTY)) && NewOk(h, infos', news, loose + {id})
  {
    var id := tried[b][p];
    assert TriedCellOk(h, infos, b, p, id);
    var infos', tried' := infos[id := infos[id].(inTried := false)], Put(tried, b, p, EMPTY);
    forall c: nat, q: nat | c < TRIED_BUCKETS && q < BUCKET_SIZE && tried'[c][q] != EMPTY
      ensures TriedCellOk(h, infos', c, q, tried'[c][q])
    {
      assert TriedCellOk(h, infos, c, q, tried[c][q]);
    }
    forall c: nat, q: nat | c < NEW_BUCKETS && q < BUCKET_SIZE && news[c][q] != EMPTY
      ensures NewCellOk(h, infos', c, q, news[c][q])
    {
      assert NewCellOk(h, infos, c, q, news[c][q]);
    }
  }

  /** Putting a loose entry into its empty tried slot. */
  lemma EnterTried(h: Hasher, infos: Infos, tried: Table, news: Table, loose: set<int>, id: int)
    requires TriedOk(h, infos, tried) && NewOk(h, infos, news, loose) && id in loose
    requires TriedCell(h, tried, infos[id].addr) == EMPTY
    ensures var a := infos[id].addr;
            var infos' := infos[id := infos[id].(inTried := true)];
            && TriedOk(h, infos', Put(tried, h.TriedBucket(a), h.TriedPos(a), id))
            && NewOk(h, infos', news, loose - {id})
  {
    var a := infos[id].addr;
    var infos', tried' := infos[id := infos[id].(inTried := true)], Put(tried, h.TriedBucket(a), h.TriedPos(a), id);
    forall c: nat, q: nat | c < TRIED_BUCKETS && q < BUCKET_SIZE && tried'[c][q] != EMPTY
      ensures TriedCellOk(h, infos', c, q, tried'[c][q])
    {
      assert (c == h.TriedBucket(a) && q == h.TriedPos(a)) || TriedCellOk(h, infos, c, q, tried[c][q]);
    }
    forall c: nat, q: nat | c < NEW_BUCKETS && q < BUCKET_SIZE && news[c][q] != EMPTY
      ensures NewCellOk(h, infos', c, q, news[c][q])
    {
      assert NewCellOk(h, infos, c, q, news[c][q]);
      assert c !in Buckets(h, news, id, a);
    }
  }

  // ---------------------------------------------------------------- where the addresses are

  /** An address is in tried, or in some buckets of new. Its home bucket follows from the source
      that first announced it. */
  datatype Place = Tried | New(buckets: set<nat>)
  datatype Known = Known(source: int, place: Place)
  type Places = map<Service, Known>

  function KnownOf(h: Hasher, news: Table, id: int, info: AddrInfo): Known
    requires Shaped(news, NEW_BUCKETS)
  {
    Known(info.source, if info.inTried then Tried else New(Buckets(h, news, id, info.addr)))
  }

  /** What the tables say, without ids, counters or positions. */
  function PlacesOf(h: Hasher, infos: Infos, addrs: map<Service, int>, news: Table): Places
    requires Shaped(news, NEW_BUCKETS)
  {
    map a | a in addrs && addrs[a] in infos :: KnownOf(h, news, addrs[a], infos[addrs[a]])
  }

  lemma SamePlacesAreTheSame(h: Hasher, infos: Infos, infos': Infos, addrs: map<Service, int>, news: Table)
    requires SamePlaces(infos, infos') && Shaped(news, NEW_BUCKETS)
    ensures PlacesOf(h, infos', addrs, news) == PlacesOf(h, infos, addrs, news)
  {
  }

  /** An address holds a cell of the new table. */
  predicate Holds(h: Hasher, k: Known, a: Service, b: nat, p: nat) {
    k.place.New? && b in k.place.buckets && h.NewPos(a, b) == p
  }

  /** The cell is emptied; an address that was nowhere else is forgotten. */
  function Cleared(h: Hasher, pl: Places, b: nat, p: nat): Places {
    map a | a in pl && !(Holds(h, pl[a], a, b, p) && pl[a].place.buckets == {b}) ::
      if Holds(h, pl[a], a, b, p) then pl[a].(place := New(pl[a].place.buckets - {b})) else pl[a]
  }

  lemma ClearedOfHolder(h: Hasher, pl: Places, b: nat, p: nat, holder: Service)
    requires holder in pl && pl[holder].place.New?
    requires forall a :: a in pl ==> (Holds(h, pl[a], a, b, p) <==> a == holder)
    ensures Cleared(h, pl, b, p) ==
            var left := pl[holder].place.buckets - {b};
            if left == {} then pl - {holder} else pl[holder := pl[holder].(place := New(left))]
  {
    assert Holds(h, pl[holder], holder, b, p);
    assert pl[holder].place.buckets - {b} == {} <==> pl[holder].place.buckets == {b};
  }

  lemma ClearedOfNobody(h: Hasher, pl: Places, b: nat, p: nat)
    requires forall a :: a in pl ==> !Holds(h, pl[a], a, b, p)
    ensures Cleared(h, pl, b, p) == pl
  {
  }

  /** The cell is given to an address that is known and not tried. */
  function Filled(pl: Places, a: Service, b: nat): Places
    requires a in pl && pl[a].place.New?
  {
    pl[a := pl[a].(place := New(pl[a].place.buckets + {b}))]
  }

  /** An address becomes known, or stays as it is known. */
  function Announced(pl: Places, a: Service, source: int): Places {
    if a in pl then pl else pl[a := Known(source, New({}))]
  }

  /** Who stands in the tried slot of an address. */
  predicate Occupies(h: Hasher, pl: Places, e: Service, a: Service) {
    e in pl && pl[e].place.Tried? && h.TriedBucket(e) == h.TriedBucket(a) && h.TriedPos(e) == h.TriedPos(a)
  }

  ghost predicate Evictee(h: Hasher, pl: Places, a: Service, e: Option<Service>) {
    match e
    case None => forall x :: !Occupies(h, pl, x, a)
    case Some(e) => Occupies(h, pl, e, a)
  }

  /** A tried address is put back into its home cell in new, which is cleared for it first. */
  function Evicted(h: Hasher, pl: Places, e: Service): Places
    requires e in pl
  {
    var home := h.NewBucket(e, pl[e].source);
    Cleared(h, pl[e := Known(pl[e].source, New({}))], home, h.NewPos(e, home))[e := Known(pl[e].source, New({home}))]
  }

  /** The address leaves new for tried; whoever stood there is evicted. */
  function MovedToTried(h: Hasher, pl: Places, a: Service, e: Option<Service>): Places
    requires a in pl && (e.Some? ==> e.value in pl)
  {
    var left := pl[a := Known(pl[a].source, New({}))];
    (if e.None? then left else Evicted(h, left, e.value))[a := Known(pl[a].source, Tried)]
  }

  /** Only the bookkeeping fields of an entry may differ. */
  predicate SameStats(x: AddrInfo, y: AddrInfo) {
    y == x.(refCount := y.refCount, inTried := y.inTried, randomPos := y.randomPos)
  }

  /** No entry appears, none changes its statistics, and only `promoted` ones become tried. */
  ghost predicate StatsKept(infos: Infos, infos': Infos, promoted: set<int>) {
    forall id :: id in infos' ==>
      id in infos && SameStats(infos[id], infos'[id]) && (infos'[id].inTried ==> infos[id].inTried || id in promoted)
  }

  /** The update of an entry by a connection attempt: failures count once per good connection. */
  function Attempted(info: AddrInfo, countFailure: bool, time: int, lastGood: int): AddrInfo {
    if countFailure && info.lastCountAttempt < lastGood
    then info.(lastTry := time, lastCountAttempt := time, attempts := info.attempts + 1)
    else info.(lastTry := time)
  }

  /** A success is noted in one entry that stays, and no other entry changes its statistics. */
  ghost predicate SucceededAt(infos: Infos, infos': Infos, id: int, time: int)
    requires id in infos
  {
    && id in infos' && SameStats(infos[id].(lastSuccess := time, lastTry := time, attempts := 0), infos'[id])
    && forall j :: j in infos' && j != id ==> j in infos && SameStats(infos[j], infos'[j])
  }

  lemma SuccessNoted(infos: Infos, infos': Infos, id: int, time: int)
    requires id in infos && infos' == infos[id := infos[id].(lastSuccess := time, lastTry := time, attempts := 0)]
    ensures SucceededAt(infos, infos', id, time)
  {
  }

  lemma SuccessKept(infos: Infos, infos1: Infos, infos': Infos, id: int, time: int)
    requires id in infos && id in infos' && SucceededAt(infos, infos1, id, time) && StatsKept(infos1, infos', {id})
    ensures SucceededAt(infos, infos', id, time)
  {
    forall j | j in infos' ensures j in infos1 && SameStats(infos1[j], infos'[j]) {
    }
  }

  lemma StatsKeptTimes(infos: Infos, infos': Infos, promoted: set<int>)
    requires StatsKept(infos, infos', promoted) && TimesOk(infos)
    requires forall id :: id in promoted && id in infos ==> infos[id].lastSuccess != 0
    ensures TimesOk(infos')
  {
  }

  // ---------------------------------------------------------------- collisions

  /** A collision is decided in favour of its entry: no success of the occupant of the slot for
      four hours, and either an attempt on it that has had its minute, or no test of it within
      the window since the entry's own success. */
  predicate Decides(info: AddrInfo, occupant: AddrInfo, now: int) {
    && now - occupant.lastSuccess >= REPLACEMENT
    && if now - occupant.lastTry < REPLACEMENT then now - occupant.lastTry > MINUTE
       else now - info.lastSuccess > TEST_WINDOW
  }

  /** The collision stays undecided. */
  predicate MustWait(info: AddrInfo, occupant: AddrInfo, now: int) {
    && now - occupant.lastSuccess >= REPLACEMENT
    && if now - occupant.lastTry < REPLACEMENT then now - occupant.lastTry <= MINUTE
       else now - info.lastSuccess <= TEST_WINDOW
  }

  lemma SomeEvictee(h: Hasher, pl: Places, a: Service, x: Service, e: Option<Service>)
    requires Evictee(h, pl, a, e) && Occupies(h, pl, x, a)
    ensures e.Some? && Occupies(h, pl, e.value, a)
  {
  }

  // ---------------------------------------------------------------- who is known

  /** Nobody becomes known who could not be reached. */
  ghost predicate Joined(h: Hasher, pl: Places, pl': Places) {
    forall a :: a in pl' ==> a in pl || h.Routable(a)
  }

  lemma JoinedTransitively(h: Hasher, pl: Places, mid: Places, pl': Places)
    requires Joined(h, pl, mid) && Joined(h, mid, pl')
    ensures Joined(h, pl, pl')
  {
  }

  lemma NobodyJoined(h: Hasher, pl: Places)
    ensures Joined(h, pl, pl)
  {
  }

  lemma AddedJoined(h: Hasher, pl: Places, a: Service, source: int, b: nat, p: nat)
    requires h.Routable(a)
    requires a in Cleared(h, Announced(pl, a, source), b, p) && Cleared(h, Announced(pl, a, source), b, p)[a].place.New?
    ensures Joined(h, pl, Filled(Cleared(h, Announced(pl, a, source), b, p), a, b))
  {
  }

  lemma MovedJoined(h: Hasher, pl: Places, a: Service, e: Option<Service>)
    requires a in pl && (e.Some? ==> e.value in pl)
    ensures Joined(h, pl, MovedToTried(h, pl, a, e))
  {
  }
}
