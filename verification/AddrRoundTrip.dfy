/**
 What is saved and loaded again is what there was: the same addresses in tried, the same
 addresses in the same buckets of new, with the same records. Only ids and memory-only fields
 differ.
 */
module AddrRoundTrip {
  import opened Common
  import opened AddrModel
  import opened AddrBook
  import opened AddrFile
  import AddrCheck

  /** The loaded entry `i` stands for the saved entry `ids[i]`. */
  ghost predicate StandsFor(s: Book, s': Book, i: int, id: int) {
    && i in s'.infos && id in s.infos
    && RecordOf(s'.infos[i]) == RecordOf(s.infos[id])
    && s'.infos[i].lastTry == 0 && s'.infos[i].inTried == s.infos[id].inTried
  }

  ghost predicate Renumbered(s: Book, s': Book, ids: seq<int>) {
    && |s'.random| == |ids| == s'.idCount
    && (forall i :: i in s'.infos <==> 0 <= i < |ids|)
    && (forall i :: 0 <= i < |ids| ==> StandsFor(s, s', i, ids[i]))
    && (forall i :: 0 <= i < |ids| ==> s'.infos[i].addr in s'.addrs && s'.addrs[s'.infos[i].addr] == i)
    && (forall a :: a in s'.addrs ==> 0 <= s'.addrs[a] < |ids| && s'.infos[s'.addrs[a]].addr == a)
  }

  /** One more entry, of an address that is not loaded yet. */
  lemma RenumberedMore(h: Hasher, s: Book, s': Book, s'': Book, ids: seq<int>, id: int, info: AddrInfo)
    requires Indexed(s.infos, s.addrs, s.idCount) && Renumbered(s, s', ids) && id in s.infos && id !in ids
    requires RecordOf(info) == RecordOf(s.infos[id]) && info.lastTry == 0 && info.inTried == s.infos[id].inTried
    requires s''.infos == s'.infos[|ids| := info] && s''.addrs == s'.addrs[info.addr := |ids|]
    requires s''.idCount == |ids| + 1 && |s''.random| == |ids| + 1
    ensures Renumbered(s, s'', ids + [id])
  {
    var n, ids' := |ids|, ids + [id];
    forall i | 0 <= i < n ensures StandsFor(s, s'', i, ids'[i]) && s'.infos[i].addr != info.addr {
      assert StandsFor(s, s', i, ids[i]);
      assert ids[i] in ids;
    }
    assert StandsFor(s, s'', n, id);
    forall i | 0 <= i < |ids'| ensures s''.infos[i].addr in s''.addrs && s''.addrs[s''.infos[i].addr] == i {
      if i < n {
        assert s'.infos[i].addr in s'.addrs;
      }
    }
  }

  ghost predicate All(infos: Infos, ids: seq<int>, tried: bool) {
    forall i :: 0 <= i < |ids| ==> ids[i] in infos && infos[ids[i]].inTried == tried
  }

  lemma {:induction false} NewsComeBack(h: Hasher, s: Book, start: Book, ids: seq<int>)
    requires Indexed(s.infos, s.addrs, s.idCount) && Distinct(ids) && All(s.infos, ids, false)
    requires start.infos == map[] && start.addrs == map[] && start.random == [] && start.idCount == 0
    ensures Renumbered(s, NewsLoaded(h, start, Records(s.infos, ids)), ids)
  {
    if ids != [] {
      hide Bump, Indexed, Renumbered;
      var n := |ids| - 1;
      var front, rs := ids[..n], Records(s.infos, ids);
      NewsComeBack(h, s, start, front);
      assert rs[..n] == Records(s.infos, front);
      var s1, s2 := NewsLoaded(h, start, rs[..n]), NewsLoaded(h, start, rs);
      var id := ids[n];
      assert id !in front;
      assert front + [id] == ids;
      RenumberedMore(h, s, s1, s2, front, id, InfoOf(rs[n], n, false));
    }
  }

  /** A tried slot that is taken is taken by the entry it belongs to. */
  lemma SlotIsItsOwn(h: Hasher, s: Book, s': Book, ids: seq<int>, id: int)
    requires TriedOk(h, s.infos, s.tried) && TriedOk(h, s'.infos, s'.tried) && Renumbered(s, s', ids)
    requires id in s.infos && s.infos[id].inTried
    ensures TriedCell(h, s'.tried, s.infos[id].addr) != EMPTY ==> id in ids
  {
    var a := s.infos[id].addr;
    var c := TriedCell(h, s'.tried, a);
    if c != EMPTY {
      assert TriedCellOk(h, s'.infos, h.TriedBucket(a), h.TriedPos(a), c);
      assert c in s'.infos && 0 <= c < |ids|;
      assert StandsFor(s, s', c, ids[c]);
      var other := ids[c];
      assert TriedCell(h, s.tried, s.infos[other].addr) == other;
      assert other in ids;
    }
  }

  lemma {:induction false} TriedsComeBack(h: Hasher, s: Book, s1: Book, news: seq<int>, ids: seq<int>)
    requires Indexed(s.infos, s.addrs, s.idCount) && TriedOk(h, s.infos, s.tried) && AllValid(h, s.infos)
    requires Loading(h, s1) && Shaped(s1.tried, TRIED_BUCKETS) && Renumbered(s, s1, news)
    requires Distinct(news + ids) && All(s.infos, ids, true)
    ensures var s2 := TriedsLoaded(h, s1, Records(s.infos, ids));
            Renumbered(s, s2, news + ids) && s2.nTried == s1.nTried && s2.nNew == s1.nNew && s2.news == s1.news
  {
    hide Loading, Indexed, TriedOk, Renumbered;
    if ids == [] {
      assert news + ids == news;
    } else {
      var n := |ids| - 1;
      var front, rs, id := ids[..n], Records(s.infos, ids), ids[|ids| - 1];
      assert news + ids == (news + front) + [id];
      DistinctFront(news + front, id);
      TriedsComeBack(h, s, s1, news, front);
      assert rs[..n] == Records(s.infos, front);
      var s2 := TriedsLoaded(h, s1, rs[..n]);
      TriedsLoadedKeeps(h, s1, rs[..n]);
      LoadingTried(h, s2);
      assert id in s.infos && s.infos[id].inTried;
      SlotIsItsOwn(h, s, s2, news + front, id);
      TriedRenumbered(h, s, s2, news + front, id);
    }
  }

  lemma DistinctFront(ids: seq<int>, id: int)
    requires Distinct(ids + [id])
    ensures Distinct(ids) && id !in ids
  {
    var all := ids + [id];
    forall i, j | 0 <= i < j < |ids| ensures ids[i] != ids[j] {
      assert all[i] != all[j];
    }
    forall i | 0 <= i < |ids| ensures ids[i] != id {
      assert all[i] != all[|ids|];
    }
  }

  lemma LoadingTried(h: Hasher, s: Book)
    requires Loading(h, s)
    ensures TriedOk(h, s.infos, s.tried)
  {
  }

  lemma TriedRenumbered(h: Hasher, s: Book, s2: Book, ids: seq<int>, id: int)
    requires Indexed(s.infos, s.addrs, s.idCount) && Renumbered(s, s2, ids) && id in s.infos && id !in ids
    requires s.infos[id].inTried && h.valid(s.infos[id].addr)
    requires Shaped(s2.tried, TRIED_BUCKETS) && TriedCell(h, s2.tried, s.infos[id].addr) == EMPTY
    ensures var s3 := TriedLoaded(h, s2, RecordOf(s.infos[id]));
            Renumbered(s, s3, ids + [id]) && s3.nTried == s2.nTried && s3.nNew == s2.nNew && s3.news == s2.news
  {
    var r := RecordOf(s.infos[id]);
    var s3 := TriedLoaded(h, s2, r);
    assert |s2.random| == |ids| == s2.idCount;
    RenumberedMore(h, s, s2, s3, ids, id, InfoOf(r, |s2.random|, true));
  }

  // ---------------------------------------------------------------- the buckets

  /** Occupied cells hold entries of the list, none of them twice. */
  ghost predicate RowOk(row: seq<int>, ids: seq<int>) {
    && (forall p :: 0 <= p < |row| && row[p] != EMPTY ==> row[p] in ids)
    && (forall p, q :: 0 <= p < q < |row| && row[p] != EMPTY ==> row[p] != row[q])
  }

  ghost predicate NoRepeat(es: seq<Entry>) {
    forall i, j :: 0 <= i < j < |es| ==> es[i] != es[j]
  }

  ghost predicate RowEntriesRight(b: nat, row: seq<int>, ids: seq<int>, es: seq<Entry>) {
    && NoRepeat(es) && (forall e :: e in es ==> e.bucket == b && 0 <= e.id < |ids|)
    && (forall i :: 0 <= i < |ids| ==> (Entry(b, i) in es <==> ids[i] in row))
  }

  lemma {:induction false} RowComesBack(b: nat, row: seq<int>, ids: seq<int>)
    requires Distinct(ids) && EMPTY !in ids && RowOk(row, ids)
    ensures RowEntriesRight(b, row, ids, RowEntries(b, SavedRow(row, ids), |ids|))
  {
    if row != [] {
      var n := |row| - 1;
      var front, x := row[..n], row[|row| - 1];
      assert row == front + [x];
      RowComesBack(b, front, ids);
      var saved := SavedRow(front, ids);
      if x == EMPTY {
        forall i | 0 <= i < |ids| ensures ids[i] in row <==> ids[i] in front {
          assert ids[i] in ids;
        }
      } else {
        assert x in ids && x !in front;
        assert (saved + [IndexIn(ids, x)])[..|saved|] == saved;
        RowGrows(b, front, x, ids, RowEntries(b, saved, |ids|));
      }
    }
  }

  lemma RowGrows(b: nat, front: seq<int>, x: int, ids: seq<int>, es: seq<Entry>)
    requires Distinct(ids) && x in ids && x !in front && RowEntriesRight(b, front, ids, es)
    ensures RowEntriesRight(b, front + [x], ids, es + [Entry(b, IndexIn(ids, x))])
  {
    var k := IndexIn(ids, x);
    var e, es' := Entry(b, k), es + [Entry(b, k)];
    assert e !in es;
    forall i | 0 <= i < |ids| ensures Entry(b, i) in es' <==> ids[i] in front + [x] {
      assert ids[i] == x <==> i == k;
    }
  }

  ghost predicate EntriesRight(rows: seq<seq<int>>, ids: seq<int>, es: seq<Entry>) {
    && NoRepeat(es)
    && (forall e :: e in es <==> e.bucket < |rows| && 0 <= e.id < |ids| && ids[e.id] in rows[e.bucket])
  }

  lemma {:induction false} EntriesComeBack(rows: seq<seq<int>>, ids: seq<int>)
    requires Distinct(ids) && EMPTY !in ids && forall b :: 0 <= b < |rows| ==> RowOk(rows[b], ids)
    ensures EntriesRight(rows, ids, Entries(SavedRows(rows, ids), |ids|))
  {
    if rows != [] {
      var n := |rows| - 1;
      EntriesComeBack(rows[..n], ids);
      RowComesBack(n, rows[n], ids);
      assert SavedRows(rows, ids)[..n] == SavedRows(rows[..n], ids);
      EntriesGrow(rows[..n], rows[n], ids, Entries(SavedRows(rows[..n], ids), |ids|),
                  RowEntries(n, SavedRow(rows[n], ids), |ids|));
      assert rows[..n] + [rows[n]] == rows;
    }
  }

  lemma EntriesGrow(rows: seq<seq<int>>, row: seq<int>, ids: seq<int>, es: seq<Entry>, es1: seq<Entry>)
    requires EntriesRight(rows, ids, es) && RowEntriesRight(|rows|, row, ids, es1)
    ensures EntriesRight(rows + [row], ids, es + es1)
  {
    var all := es + es1;
    forall i, j | 0 <= i < j < |all| ensures all[i] != all[j] {
      if i < |es| <= j {
        assert es[i] in es && es1[j - |es|] in es1;
      }
    }
    forall e ensures e in all <==> e.bucket < |rows| + 1 && 0 <= e.id < |ids| && ids[e.id] in (rows + [row])[e.bucket] {
      if e in es1 {
        assert Entry(|rows|, e.id) == e;
      }
      if e.bucket == |rows| && 0 <= e.id < |ids| {
        assert Entry(|rows|, e.id) == e;
      }
    }
  }

  // ---------------------------------------------------------------- filling the new table again

  /** A saved bucket entry: entry number `e.id` of the list holds its cell of the bucket. */
  ghost predicate IsHeld(h: Hasher, s: Book, news: seq<int>, e: Entry)
    requires Shaped(s.news, NEW_BUCKETS)
  {
    && e.bucket < NEW_BUCKETS && 0 <= e.id < |news| && news[e.id] in s.infos
    && s.news[e.bucket][h.NewPos(s.infos[news[e.id]].addr, e.bucket)] == news[e.id]
  }

  function BucketsOf(es: seq<Entry>, id: int): set<nat> {
    set b: nat | b < NEW_BUCKETS && Entry(b, id) in es
  }

  /** So far the entries hold the cells of these bucket entries and no others. */
  ghost predicate Filled(h: Hasher, s: Book, s': Book, news: seq<int>, es: seq<Entry>)
    requires Shaped(s'.news, NEW_BUCKETS)
  {
    forall i :: 0 <= i < |news| && news[i] in s.infos ==>
      Buckets(h, s'.news, i, s.infos[news[i]].addr) == BucketsOf(es, i)
  }

  /** What the loaded book is at this stage. */
  ghost predicate Refilling(h: Hasher, s: Book, s': Book, news: seq<int>, trieds: seq<int>, es: seq<Entry>) {
    && Shaped(s.news, NEW_BUCKETS) && Shaped(s'.news, NEW_BUCKETS)
    && Renumbered(s, s', news + trieds) && NewOk(h, s'.infos, s'.news, Unplaced(s'.infos))
    && NewOk(h, s.infos, s.news, {})
    && All(s.infos, news, false) && All(s.infos, trieds, true) && Distinct(news)
    && Filled(h, s, s', news, es) && forall e :: e in es ==> IsHeld(h, s, news, e)
  }

  lemma NewcomerSeat(h: Hasher, s: Book, s': Book, news: seq<int>, trieds: seq<int>, i: int)
    requires Renumbered(s, s', news + trieds) && All(s.infos, news, false) && All(s.infos, trieds, true)
    requires i in s'.infos
    ensures 0 <= i < |news + trieds| && StandsFor(s, s', i, (news + trieds)[i])
    ensures s'.infos[i].inTried <==> i >= |news|
    ensures !s'.infos[i].inTried ==> i < |news| && news[i] in s.infos && s'.infos[i].addr == s.infos[news[i]].addr
  {
    var ids := news + trieds;
    assert 0 <= i < |ids| && StandsFor(s, s', i, ids[i]);
    if i < |news| {
      assert ids[i] == news[i];
    } else {
      assert ids[i] == trieds[i - |news|];
    }
  }

  /** A cell that is taken is taken by the entry it belongs to. */
  lemma CellIsItsOwn(h: Hasher, s: Book, s': Book, news: seq<int>, trieds: seq<int>, es: seq<Entry>, e: Entry)
    requires Refilling(h, s, s', news, trieds, es) && IsHeld(h, s, news, e)
    ensures s'.news[e.bucket][h.NewPos(s.infos[news[e.id]].addr, e.bucket)] != EMPTY ==> e in es
  {
    var b, a := e.bucket, s.infos[news[e.id]].addr;
    var pos := h.NewPos(a, b);
    var c := s'.news[b][pos];
    if c != EMPTY {
      assert NewCellOk(h, s'.infos, b, pos, c);
      NewcomerSeat(h, s, s', news, trieds, c);
      assert b in Buckets(h, s'.news, c, s.infos[news[c]].addr);
      assert Entry(b, c) in es;
      assert IsHeld(h, s, news, Entry(b, c));
      assert c == e.id;
    }
  }

  /** There is a reference left for an entry that has not got back all its cells. */
  lemma ReferenceLeft(h: Hasher, s: Book, s': Book, news: seq<int>, trieds: seq<int>, es: seq<Entry>, e: Entry)
    requires Refilling(h, s, s', news, trieds, es) && IsHeld(h, s, news, e) && e !in es
    ensures e.id in s'.infos && !s'.infos[e.id].inTried && s'.infos[e.id].addr == s.infos[news[e.id]].addr
    ensures s'.infos[e.id].refCount < NEW_BUCKETS_PER_ADDRESS
  {
    var i, id := e.id, news[e.id];
    var ids := news + trieds;
    assert 0 <= i < |ids| && ids[i] == id;
    assert i in s'.infos;
    NewcomerSeat(h, s, s', news, trieds, i);
    var now, all := Buckets(h, s'.news, i, s.infos[id].addr), Buckets(h, s.news, id, s.infos[id].addr);
    assert now == BucketsOf(es, i);
    forall b | b in now ensures b in all {
      assert Entry(b, i) in es;
      assert IsHeld(h, s, news, Entry(b, i));
    }
    assert e == Entry(e.bucket, i);
    assert e.bucket in all && e.bucket !in now;
    SubsetSize(now, all - {e.bucket});
  }

  lemma CellComesBack(h: Hasher, s: Book, s': Book, news: seq<int>, trieds: seq<int>, es: seq<Entry>, e: Entry)
    requires Refilling(h, s, s', news, trieds, es) && IsHeld(h, s, news, e) && e !in es && AllValid(h, s.infos)
    ensures e.id in s'.infos && !s'.infos[e.id].inTried
    ensures var s2 := CellLoaded(h, s', true, e.bucket, e.id);
            Shaped(s2.news, NEW_BUCKETS) && Filled(h, s, s2, news, es + [e])
  {
    CellIsItsOwn(h, s, s', news, trieds, es, e);
    ReferenceLeft(h, s, s', news, trieds, es, e);
    var a := s.infos[news[e.id]].addr;
    var pos := h.NewPos(a, e.bucket);
    var s2 := CellLoaded(h, s', true, e.bucket, e.id);
    assert h.valid(a);
    assert s2 == CellGained(s', e.bucket, pos, e.id);
    forall i | 0 <= i < |news| && news[i] in s.infos
      ensures Buckets(h, s2.news, i, s.infos[news[i]].addr) == BucketsOf(es + [e], i)
    {
      BucketsPut(h, s'.news, e.bucket, pos, e.id, i, s.infos[news[i]].addr);
      BucketsOfMore(es, e, i);
      if i != e.id && h.NewPos(s.infos[news[i]].addr, e.bucket) == pos {
        assert e.bucket !in Buckets(h, s'.news, i, s.infos[news[i]].addr);
      }
    }
  }

  lemma BucketsOfMore(es: seq<Entry>, e: Entry, id: int)
    requires e.bucket < NEW_BUCKETS
    ensures BucketsOf(es + [e], id) == if e.id == id then BucketsOf(es, id) + {e.bucket} else BucketsOf(es, id)
  {
    forall b: nat ensures Entry(b, id) in es + [e] <==> Entry(b, id) in es || (b == e.bucket && id == e.id) {}
  }

  lemma ReferencedRenumbered(s: Book, s1: Book, s2: Book, ids: seq<int>)
    requires Renumbered(s, s1, ids) && Referenced(s1, s2)
    ensures Renumbered(s, s2, ids)
  {
    forall i | 0 <= i < |ids| ensures StandsFor(s, s2, i, ids[i]) && s2.infos[i].addr == s1.infos[i].addr {
      assert StandsFor(s, s1, i, ids[i]);
      assert i in s1.infos;
      assert SameButReferences(s1.infos[i], s2.infos[i]);
    }
    forall a | a in s2.addrs ensures 0 <= s2.addrs[a] < |ids| && s2.infos[s2.addrs[a]].addr == a {
      assert 0 <= s1.addrs[a] < |ids|;
    }
  }

  lemma {:induction false} CellsComeBack(h: Hasher, s: Book, s2: Book, news: seq<int>, trieds: seq<int>, es: seq<Entry>)
    requires Refilling(h, s, s2, news, trieds, []) && Loading(h, s2) && AllValid(h, s.infos)
    requires NoRepeat(es) && forall e :: e in es ==> IsHeld(h, s, news, e)
    requires Loadable(s2, true, es)
    ensures Refilling(h, s, CellsLoaded(h, s2, true, es), news, trieds, es)
  {
    hide Loading, Filled, NewOk, Renumbered, IsHeld, CellLoaded;
    if es != [] {
      var n := |es| - 1;
      var front, e := es[..n], es[|es| - 1];
      assert front + [e] == es && e in es;
      assert e !in front;
      forall x | x in front ensures x in es {}
      CellsComeBack(h, s, s2, news, trieds, front);
      var s3, s4 := CellsLoaded(h, s2, true, front), CellsLoaded(h, s2, true, es);
      CellComesBack(h, s, s3, news, trieds, front, e);
      assert Filled(h, s, s4, news, es);
      CellsLoadedKeeps(h, s2, true, es);
      LoadingNew(h, s4);
      ReferencedRenumbered(s, s2, s4, news + trieds);
    }
  }

  lemma LoadingNew(h: Hasher, s: Book)
    requires Loading(h, s)
    ensures NewOk(h, s.infos, s.news, Unplaced(s.infos))
  {
  }

  // ---------------------------------------------------------------- the file and the tables

  /** The cells that a saved file restores are those that were held. */
  lemma HeldEntries(h: Hasher, s: Book, news: seq<int>, es: seq<Entry>)
    requires NewOk(h, s.infos, s.news, {}) && Distinct(news) && EntriesRight(s.news, news, es)
    requires forall i :: 0 <= i < |news| ==> news[i] in s.infos
    ensures forall e :: e in es <==> IsHeld(h, s, news, e)
  {
    forall e ensures e in es <==> IsHeld(h, s, news, e) {
      if e.bucket < NEW_BUCKETS && 0 <= e.id < |news| {
        var id := news[e.id];
        assert id in s.infos;
        var pos := h.NewPos(s.infos[id].addr, e.bucket);
        if id in s.news[e.bucket] {
          var p :| 0 <= p < BUCKET_SIZE && s.news[e.bucket][p] == id;
          assert NewCellOk(h, s.infos, e.bucket, p, id);
        }
      }
    }
  }

  lemma RowsOk(h: Hasher, s: Book, news: seq<int>)
    requires NewOk(h, s.infos, s.news, {}) && forall id :: id in NewIds(s.infos, {}) ==> id in news
    ensures forall b :: 0 <= b < |s.news| ==> RowOk(s.news[b], news)
  {
    forall b: nat, p: nat | b < NEW_BUCKETS && p < BUCKET_SIZE && s.news[b][p] != EMPTY
      ensures s.news[b][p] in news && NewCellOk(h, s.infos, b, p, s.news[b][p])
    {
      var id := s.news[b][p];
      assert NewCellOk(h, s.infos, b, p, id);
      assert id in NewIds(s.infos, {});
    }
    forall b, p, q | 0 <= b < |s.news| && 0 <= p < q < BUCKET_SIZE && s.news[b][p] != EMPTY
      ensures s.news[b][p] != s.news[b][q]
    {
      assert s.news[b][q] != EMPTY ==> NewCellOk(h, s.infos, b, q, s.news[b][q]);
    }
  }

  lemma TablesByReference(h: Hasher, s: Book)
    requires TriedOk(h, s.infos, s.tried) && NewOk(h, s.infos, s.news, {})
    ensures forall id :: id in s.infos ==> (s.infos[id].inTried <==> s.infos[id].refCount == 0)
    ensures EMPTY !in s.infos && Shaped(s.news, NEW_BUCKETS)
  {
  }

  lemma ListedAreEntries(infos: Infos, order: seq<int>)
    requires Lists(infos, order)
    ensures forall i :: 0 <= i < |order| ==> order[i] in infos
  {
    forall i | 0 <= i < |order| ensures order[i] in infos {
      var id := order[i];
      assert id in order;
    }
  }

  lemma PickedTable(infos: Infos, order: seq<int>, tried: bool)
    requires Lists(infos, order) && forall i :: 0 <= i < |order| ==> order[i] in infos
    requires forall id :: id in infos ==> (infos[id].inTried <==> infos[id].refCount == 0)
    ensures var ids := Picked(infos, order, tried);
            && All(infos, ids, tried) && Distinct(ids)
            && forall id :: id in ids <==> id in infos && infos[id].inTried == tried
  {
    var ids := Picked(infos, order, tried);
    PickedAreEntries(infos, order, tried);
    PickedDistinct(infos, order, tried);
    hide Picked;
    forall id ensures id in ids <==> id in infos && infos[id].inTried == tried {
      assert id in ids <==> id in order && Goes(infos[id], tried);
    }
    forall i | 0 <= i < |ids| ensures ids[i] in infos && infos[ids[i]].inTried == tried {
      var id := ids[i];
      assert id in ids;
    }
  }

  /** The two lists that are saved. */
  lemma PickedTables(infos: Infos, order: seq<int>)
    requires Lists(infos, order) && forall i :: 0 <= i < |order| ==> order[i] in infos
    requires forall id :: id in infos ==> (infos[id].inTried <==> infos[id].refCount == 0)
    ensures Distinct(Picked(infos, order, false) + Picked(infos, order, true))
  {
    var news, trieds := Picked(infos, order, false), Picked(infos, order, true);
    PickedTable(infos, order, false);
    PickedTable(infos, order, true);
    hide Picked;
    var ids := news + trieds;
    forall i, j | 0 <= i < j < |ids| ensures ids[i] != ids[j] {
      if i < |news| <= j {
        var x, y := news[i], trieds[j - |news|];
        assert x in news && y in trieds;
      }
    }
  }

  // ---------------------------------------------------------------- the round trip

  /** Where the loading of a saved file stands when its records have been read. */
  lemma RecordsComeBack(h: Hasher, s: Book, order: seq<int>, asmap: int)
    requires BookOk(h, s, {}, {}) && AllValid(h, s.infos) && Lists(s.infos, order)
    requires forall i :: 0 <= i < |order| ==> order[i] in s.infos
    ensures var news, trieds := Picked(s.infos, order, false), Picked(s.infos, order, true);
            var s2 := RecordsLoaded(h, Saved(s, order, asmap));
            && Renumbered(s, s2, news + trieds) && s2.nNew == |news| && s2.nTried == |trieds| && s2.news == Blank().news
  {
    hide Indexed, Shuffled, Counted, TriedOk, NewOk, Renumbered, Picked, Loading;
    var news, trieds, file := Picked(s.infos, order, false), Picked(s.infos, order, true), Saved(s, order, asmap);
    TablesByReference(h, s);
    PickedTable(s.infos, order, false);
    PickedTable(s.infos, order, true);
    PickedTables(s.infos, order);
    var start := Blank().(nNew := |file.news|, nTried := |file.trieds|);
    NewsComeBack(h, s, start, news);
    NewsLoadedTables(h, start, file.news);
    BlankLoading(h, |file.news|, |file.trieds|);
    NewsLoadedKeeps(h, start, file.news);
    TriedsComeBack(h, s, NewsLoaded(h, start, file.news), news, trieds);
  }

  lemma NothingFilled(h: Hasher, s: Book, s2: Book, news: seq<int>)
    requires s2.news == Blank().news
    ensures Shaped(s2.news, NEW_BUCKETS) && Filled(h, s, s2, news, [])
  {
  }

  lemma CellsOfTheFileComeBack(h: Hasher, s: Book, order: seq<int>, asmap: int)
    requires BookOk(h, s, {}, {}) && AllValid(h, s.infos) && Lists(s.infos, order)
    requires forall i :: 0 <= i < |order| ==> order[i] in s.infos
    ensures var news, trieds := Picked(s.infos, order, false), Picked(s.infos, order, true);
            var es := Entries(Saved(s, order, asmap).buckets, |news|);
            && Refilling(h, s, Loaded(h, Saved(s, order, asmap), asmap), news, trieds, es)
            && forall e :: e in es <==> IsHeld(h, s, news, e)
  {
    hide Indexed, Shuffled, Counted, TriedOk, NewOk, Renumbered, Picked, Loading, CellsLoaded, RecordsLoaded, Entries,
         Filled, IsHeld, Loadable;
    var news, trieds, file := Picked(s.infos, order, false), Picked(s.infos, order, true), Saved(s, order, asmap);
    var es := Entries(file.buckets, |news|);
    TablesByReference(h, s);
    PickedTable(s.infos, order, false);
    PickedTable(s.infos, order, true);
    RowsOk(h, s, news);
    EntriesComeBack(s.news, news);
    HeldEntries(h, s, news, es);
    RecordsComeBack(h, s, order, asmap);
    var s2 := RecordsLoaded(h, file);
    RecordsLoading(h, file);
    LoadingNew(h, s2);
    NothingFilled(h, s, s2, news);
    RecordsLoadable(h, file, true);
    CellsComeBack(h, s, s2, news, trieds, es);
  }

  /** Everything is back: each entry holds the cells it held. */
  ghost predicate Back(h: Hasher, s: Book, s': Book, news: seq<int>, trieds: seq<int>) {
    && Shaped(s.news, NEW_BUCKETS) && Shaped(s'.news, NEW_BUCKETS)
    && Renumbered(s, s', news + trieds) && All(s.infos, news, false) && All(s.infos, trieds, true)
    && forall i :: 0 <= i < |news| ==>
         Buckets(h, s'.news, i, s.infos[news[i]].addr) == Buckets(h, s.news, news[i], s.infos[news[i]].addr)
  }

  lemma AllCellsAreBack(h: Hasher, s: Book, s': Book, news: seq<int>, trieds: seq<int>, es: seq<Entry>)
    requires Refilling(h, s, s', news, trieds, es) && forall e :: e in es <==> IsHeld(h, s, news, e)
    ensures Back(h, s, s', news, trieds)
  {
    hide NewOk, Renumbered;
    forall i | 0 <= i < |news|
      ensures Buckets(h, s'.news, i, s.infos[news[i]].addr) == Buckets(h, s.news, news[i], s.infos[news[i]].addr)
    {
      assert news[i] in s.infos;
      forall b: nat | b < NEW_BUCKETS
        ensures Entry(b, i) in es <==> b in Buckets(h, s.news, news[i], s.infos[news[i]].addr)
      {
        assert Entry(b, i) in es <==> IsHeld(h, s, news, Entry(b, i));
      }
    }
  }

  /** The same is known of the same addresses. */
  lemma SameIsKnown(h: Hasher, s: Book, s': Book, news: seq<int>, trieds: seq<int>, i: int)
    requires Back(h, s, s', news, trieds) && i in s'.infos
    ensures 0 <= i < |news + trieds| && (news + trieds)[i] in s.infos
    ensures var id := (news + trieds)[i];
            && KnownOf(h, s'.news, i, s'.infos[i]) == KnownOf(h, s.news, id, s.infos[id])
            && s'.infos[i].addr == s.infos[id].addr
  {
    NewcomerSeat(h, s, s', news, trieds, i);
    if !s'.infos[i].inTried {
      assert (news + trieds)[i] == news[i];
    }
  }

  ghost predicate SameRecords(s: Book, s': Book) {
    && s'.addrs.Keys == s.addrs.Keys
    && forall a :: a in s.addrs ==> s.addrs[a] in s.infos && s'.addrs[a] in s'.infos &&
                                    RecordOf(s'.infos[s'.addrs[a]]) == RecordOf(s.infos[s.addrs[a]])
  }

  lemma AddressIsBack(h: Hasher, s: Book, s': Book, news: seq<int>, trieds: seq<int>, a: Service)
    requires Back(h, s, s', news, trieds) && Indexed(s.infos, s.addrs, s.idCount) && a in s'.addrs
    ensures a in s.addrs && s.addrs[a] in s.infos && s'.addrs[a] in s'.infos
    ensures KnownOf(h, s'.news, s'.addrs[a], s'.infos[s'.addrs[a]]) ==
            KnownOf(h, s.news, s.addrs[a], s.infos[s.addrs[a]])
    ensures RecordOf(s'.infos[s'.addrs[a]]) == RecordOf(s.infos[s.addrs[a]])
  {
    hide KnownOf;
    var i, ids := s'.addrs[a], news + trieds;
    assert i in s'.infos;
    SameIsKnown(h, s, s', news, trieds, i);
    assert StandsFor(s, s', i, ids[i]);
    var id := ids[i];
    assert s.addrs[s.infos[id].addr] == id;
  }

  lemma NoAddressIsLost(h: Hasher, s: Book, s': Book, ids: seq<int>)
    requires Renumbered(s, s', ids) && Indexed(s.infos, s.addrs, s.idCount) && forall id :: id in s.infos ==> id in ids
    ensures s.addrs.Keys <= s'.addrs.Keys
  {
    forall a | a in s.addrs.Keys ensures a in s'.addrs.Keys {
      var id := s.addrs[a];
      assert id in s.infos;
      var i :| 0 <= i < |ids| && ids[i] == id;
      assert StandsFor(s, s', i, ids[i]);
    }
  }

  lemma SamePlacesAndRecords(h: Hasher, s: Book, s': Book, news: seq<int>, trieds: seq<int>)
    requires Back(h, s, s', news, trieds) && Indexed(s.infos, s.addrs, s.idCount)
    requires forall id :: id in s.infos ==> id in news + trieds
    ensures BookPlaces(h, s') == BookPlaces(h, s) && SameRecords(s, s')
  {
    hide KnownOf, Indexed, Renumbered, RecordOf;
    NoAddressIsLost(h, s, s', news + trieds);
    forall a | a in s'.addrs
      ensures a in s.addrs && s.addrs[a] in s.infos && s'.addrs[a] in s'.infos
      ensures KnownOf(h, s'.news, s'.addrs[a], s'.infos[s'.addrs[a]]) ==
              KnownOf(h, s.news, s.addrs[a], s.infos[s.addrs[a]])
      ensures RecordOf(s'.infos[s'.addrs[a]]) == RecordOf(s.infos[s.addrs[a]])
    {
      AddressIsBack(h, s, s', news, trieds, a);
    }
  }

  // ---------------------------------------------------------------- and it passes the check

  lemma TotalsAreBack(h: Hasher, s: Book, s': Book, news: seq<int>, trieds: seq<int>)
    requires Renumbered(s, s', news + trieds) && All(s.infos, news, false) && All(s.infos, trieds, true)
    ensures |NewIds(s'.infos, {})| == |news| && |TriedIds(s'.infos)| == |trieds|
  {
    var n, m := |news|, |news + trieds|;
    forall i | i in s'.infos ensures 0 <= i < m && (s'.infos[i].inTried <==> i >= n) {
      NewcomerSeat(h, s, s', news, trieds, i);
    }
    RangeSize(0, n);
    RangeSize(n, m);
    forall i
      ensures (i in NewIds(s'.infos, {}) <==> i in Range(0, n)) && (i in TriedIds(s'.infos) <==> i in Range(n, m))
    {
      assert i in s'.infos <==> 0 <= i < m;
    }
    assert NewIds(s'.infos, {}) == Range(0, n) && TriedIds(s'.infos) == Range(n, m);
  }

  lemma RenumberedIndexed(s: Book, s': Book, ids: seq<int>)
    requires Renumbered(s, s', ids)
    ensures Indexed(s'.infos, s'.addrs, s'.idCount)
  {
  }

  lemma RenumberedTimes(s: Book, s': Book, ids: seq<int>)
    requires Renumbered(s, s', ids) && TimesOk(s.infos)
    ensures TimesOk(s'.infos)
  {
    forall i | i in s'.infos ensures
      s'.infos[i].lastTry >= 0 && s'.infos[i].lastSuccess >= 0 && (s'.infos[i].inTried ==> s'.infos[i].lastSuccess != 0)
    {
      assert StandsFor(s, s', i, ids[i]);
    }
  }

  lemma EverybodyIsPlaced(h: Hasher, s: Book, s': Book, news: seq<int>, trieds: seq<int>)
    requires Back(h, s, s', news, trieds) && NewOk(h, s.infos, s.news, {})
    requires NewOk(h, s'.infos, s'.news, Unplaced(s'.infos))
    ensures Unplaced(s'.infos) == {}
  {
    forall i | i in s'.infos && !s'.infos[i].inTried ensures s'.infos[i].refCount != 0 {
      NewcomerSeat(h, s, s', news, trieds, i);
      var id := news[i];
      assert id in s.infos && !s.infos[id].inTried;
    }
  }

  lemma BackIsOk(h: Hasher, s: Book, s': Book, news: seq<int>, trieds: seq<int>)
    requires BookOk(h, s, {}, {}) && TimesOk(s.infos)
    requires Loading(h, s') && Back(h, s, s', news, trieds) && s'.nNew == |news| && s'.nTried == |trieds|
    ensures Unplaced(s'.infos) == {} && BookOk(h, s', {}, {}) && TimesOk(s'.infos) && AddrCheck.Consistent(h, s')
  {
    hide Indexed, Shuffled, Counted, TriedOk, NewOk, Renumbered, TimesOk, AddrCheck.Consistent, AddrCheck.Unchecked;
    EverybodyIsPlaced(h, s, s', news, trieds);
    TotalsAreBack(h, s, s', news, trieds);
    RenumberedIndexed(s, s', news + trieds);
    RenumberedTimes(s, s', news + trieds);
    NamedIdCount(s');
    AddrCheck.InvariantAndCheck(h, s');
  }

  lemma NamedIdCount(s: Book)
    requires Named(s.infos, s.addrs, s.idCount)
    ensures s.idCount >= 0
  {
  }

  // ---------------------------------------------------------------- the sizes

  /** Different cells of a table of `buckets` buckets. */
  lemma CellsBound(cells: seq<int>, buckets: nat)
    requires Distinct(cells) && forall i :: 0 <= i < |cells| ==> 0 <= cells[i] < buckets * BUCKET_SIZE
    ensures |cells| <= buckets * BUCKET_SIZE
  {
    assert Distinct(cells);
    AddrCheck.DistinctSize(cells);
    RangeSize(0, buckets * BUCKET_SIZE);
    forall x | x in AddrCheck.Elements(cells) ensures x in Range(0, buckets * BUCKET_SIZE) {}
    SubsetSize(AddrCheck.Elements(cells), Range(0, buckets * BUCKET_SIZE));
  }

  function CellNumber(b: nat, p: nat): int { b * BUCKET_SIZE + p }

  lemma CellNumbers(b: nat, p: nat, c: nat, q: nat)
    requires p < BUCKET_SIZE && q < BUCKET_SIZE
    ensures CellNumber(b, p) == CellNumber(c, q) <==> b == c && p == q
    ensures b < c ==> CellNumber(b, p) < c * BUCKET_SIZE
  {
  }

  lemma TriedFits(h: Hasher, s: Book, ids: seq<int>)
    requires TriedOk(h, s.infos, s.tried) && Distinct(ids) && All(s.infos, ids, true)
    ensures |ids| <= TRIED_BUCKETS * BUCKET_SIZE
  {
    var cells := seq(|ids|, i requires 0 <= i < |ids| && ids[i] in s.infos =>
                       CellNumber(h.TriedBucket(s.infos[ids[i]].addr), h.TriedPos(s.infos[ids[i]].addr)));
    forall i, j | 0 <= i < j < |cells| ensures cells[i] != cells[j] {
      var x, y := ids[i], ids[j];
      assert TriedCell(h, s.tried, s.infos[x].addr) == x && TriedCell(h, s.tried, s.infos[y].addr) == y;
      CellNumbers(h.TriedBucket(s.infos[x].addr), h.TriedPos(s.infos[x].addr),
                  h.TriedBucket(s.infos[y].addr), h.TriedPos(s.infos[y].addr));
    }
    CellsBound(cells, TRIED_BUCKETS);
  }

  /** Some bucket that an entry of new is in. */
  ghost function SomeBucket(h: Hasher, s: Book, id: int): nat
    requires Shaped(s.news, NEW_BUCKETS) && id in s.infos && Buckets(h, s.news, id, s.infos[id].addr) != {}
    ensures SomeBucket(h, s, id) < NEW_BUCKETS
    ensures s.news[SomeBucket(h, s, id)][h.NewPos(s.infos[id].addr, SomeBucket(h, s, id))] == id
  {
    var b :| b in Buckets(h, s.news, id, s.infos[id].addr);
    b
  }

  lemma NewFits(h: Hasher, s: Book, ids: seq<int>)
    requires NewOk(h, s.infos, s.news, {}) && Distinct(ids) && All(s.infos, ids, false)
    ensures |ids| <= NEW_BUCKETS * BUCKET_SIZE
  {
    forall i | 0 <= i < |ids| ensures Buckets(h, s.news, ids[i], s.infos[ids[i]].addr) != {} {
      var id := ids[i];
      assert id in s.infos && |Buckets(h, s.news, id, s.infos[id].addr)| >= 1;
    }
    var cells := seq(|ids|, i requires && 0 <= i < |ids| && ids[i] in s.infos
                                       && Buckets(h, s.news, ids[i], s.infos[ids[i]].addr) != {} =>
                       CellNumber(SomeBucket(h, s, ids[i]), h.NewPos(s.infos[ids[i]].addr, SomeBucket(h, s, ids[i]))));
    forall i, j | 0 <= i < j < |cells| ensures cells[i] != cells[j] {
      var x, y := ids[i], ids[j];
      var b, c := SomeBucket(h, s, x), SomeBucket(h, s, y);
      CellNumbers(b, h.NewPos(s.infos[x].addr, b), c, h.NewPos(s.infos[y].addr, c));
    }
    CellsBound(cells, NEW_BUCKETS);
  }

  /** What a consistent address manager saves, and what becomes of it when it is loaded under the
      same key and asmap: nothing is lost. */
  lemma SavedComesBack(h: Hasher, s: Book, order: seq<int>, asmap: int)
    requires BookOk(h, s, {}, {}) && TimesOk(s.infos) && AllValid(h, s.infos) && Lists(s.infos, order)
    ensures forall i :: 0 <= i < |order| ==> order[i] in s.infos
    ensures var file := Saved(s, order, asmap);
            var s' := Loaded(h, file, asmap);
            && Acceptable(file) && Unplaced(s'.infos) == {} && Sound(s') && AddrCheck.Consistent(h, s')
            && BookOk(h, s', {}, {}) && TimesOk(s'.infos)
            && BookPlaces(h, s') == BookPlaces(h, s) && SameRecords(s, s')
  {
    hide Indexed, Shuffled, Counted, TriedOk, NewOk, Renumbered, TimesOk, Picked, Loaded, RecordsLoaded, BookPlaces,
         Refilling, IsHeld, Entries, Back, SameRecords, Loading, AddrCheck.Consistent, Sound, Without;
    ListedAreEntries(s.infos, order);
    var news, trieds, file := Picked(s.infos, order, false), Picked(s.infos, order, true), Saved(s, order, asmap);
    TablesByReference(h, s);
    PickedTable(s.infos, order, false);
    PickedTable(s.infos, order, true);
    TriedFits(h, s, trieds);
    NewFits(h, s, news);
    CellsOfTheFileComeBack(h, s, order, asmap);
    var s' := Loaded(h, file, asmap);
    AllCellsAreBack(h, s, s', news, trieds, Entries(file.buckets, |news|));
    LoadedLoading(h, file, asmap);
    LoadedTotals(h, s, order, asmap);
    BackIsOk(h, s, s', news, trieds);
    WithoutNone(s');
    SoundIsConsistent(h, file, asmap, s');
    SamePlacesAndRecords(h, s, s', news, trieds);
  }

  lemma LoadedTotals(h: Hasher, s: Book, order: seq<int>, asmap: int)
    requires BookOk(h, s, {}, {}) && AllValid(h, s.infos) && Lists(s.infos, order)
    requires forall i :: 0 <= i < |order| ==> order[i] in s.infos
    ensures var s' := Loaded(h, Saved(s, order, asmap), asmap);
            s'.nNew == |Picked(s.infos, order, false)| && s'.nTried == |Picked(s.infos, order, true)|
  {
    hide BookOk, Picked, RecordsLoaded, Saved, Renumbered;
    RecordsComeBack(h, s, order, asmap);
  }
}
