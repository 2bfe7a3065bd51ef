/**
 AddrManImpl: six redundant structures kept in step by operations that pass through
 inconsistent states. The methods are the source's; what they make of the structures is said
 by the functions of AddrBook, and of the addresses by View.
 */
module AddrMan {
  import opened Common
  import opened AddrModel
  import opened AddrBook
  import opened AddrFile
  import AddrCheck

  class AddrManImpl {
    const hasher: Hasher
    var nIdCount: int
    var mapInfo: Infos
    var mapAddr: map<Service, int>
    var vRandom: seq<int>
    var nTried: int
    var vvTried: Table
    var nNew: int
    var vvNew: Table
    var networkCounts: map<int, NewTriedCount>
    var lastGood: int
    var triedCollisions: set<int>

    function S(): Book
      reads this
    {
      Book(nIdCount, mapInfo, mapAddr, vRandom, nTried, vvTried, nNew, vvNew, networkCounts)
    }

    ghost predicate Ok(loose: set<int>, uncounted: set<int>)
      reads this
    {
      Shaped(vvTried, TRIED_BUCKETS) && Shaped(vvNew, NEW_BUCKETS) && BookOk(hasher, S(), loose, uncounted)
    }

    /** The invariant of every public operation. */
    ghost predicate Valid()
      reads this
    {
      Ok({}, {}) && Colliding(hasher, S(), triedCollisions)
    }

    function View(): Places
      requires Shaped(vvNew, NEW_BUCKETS)
      reads this
    {
      BookPlaces(hasher, S())
    }

    constructor (hasher: Hasher)
      ensures Valid() && this.hasher == hasher && View() == map[] && TimesOk(mapInfo)
      ensures S() == Blank() && triedCollisions == {}
    {
      this.hasher := hasher;
      nIdCount := 0;
      mapInfo, mapAddr, vRandom := map[], map[], [];
      nTried, nNew := 0, 0;
      vvTried := seq(TRIED_BUCKETS, _ => seq(BUCKET_SIZE, _ => EMPTY));
      vvNew := seq(NEW_BUCKETS, _ => seq(BUCKET_SIZE, _ => EMPTY));
      lastGood := 1;
      triedCollisions := {};
      networkCounts := map[];
      new;
      EmptyBookCounted(hasher);
    }

    method Find(addr: Service) returns (found: bool, id: int)
      requires Ok({}, {})
      ensures found <==> addr in mapAddr
      ensures found <==> addr in View()
      ensures found ==> id == mapAddr[addr] && id in mapInfo && mapInfo[id].addr == addr
    {
      if addr !in mapAddr {
        return false, EMPTY;
      }
      id := mapAddr[addr];
      return id in mapInfo, id;
    }

    method Create(addr: Address, source: int) returns (id: int)
      modifies this
      ensures id == old(nIdCount) && S() == Created(hasher, old(S()), addr, source)
      ensures triedCollisions == old(triedCollisions) && lastGood == old(lastGood)
    {
      hide Bump;
      id := nIdCount;
      nIdCount := nIdCount + 1;
      mapInfo := mapInfo[id := FreshInfo(addr, source, EMPTY)];
      mapAddr := mapAddr[addr.service := id];
      mapInfo := mapInfo[id := mapInfo[id].(randomPos := |vRandom|)];
      vRandom := vRandom + [id];
      nNew := nNew + 1;
      networkCounts := Bump(networkCounts, hasher.Network(addr.service), 1, 0);
    }

    method SwapRandom(pos1: nat, pos2: nat)
      requires pos1 < |vRandom| && pos2 < |vRandom| && vRandom[pos1] in mapInfo && vRandom[pos2] in mapInfo
      modifies this
      ensures S() == SwappedBook(old(S()), pos1, pos2)
      ensures triedCollisions == old(triedCollisions) && lastGood == old(lastGood)
    {
      if pos1 == pos2 {
        return;
      }
      var id1, id2 := vRandom[pos1], vRandom[pos2];
      mapInfo := mapInfo[id1 := mapInfo[id1].(randomPos := pos2)];
      mapInfo := mapInfo[id2 := mapInfo[id2].(randomPos := pos1)];
      vRandom := vRandom[pos1 := id2];
      vRandom := vRandom[pos2 := id1];
    }

    method Delete(id: int)
      requires Deletable(S(), id) && !mapInfo[id].inTried && mapInfo[id].refCount == 0
      modifies this
      ensures S() == Deleted(hasher, old(S()), id)
      ensures triedCollisions == old(triedCollisions) && lastGood == old(lastGood)
    {
      var info := mapInfo[id];
      SwapRandom(info.randomPos, |vRandom| - 1);
      networkCounts := Bump(networkCounts, hasher.Network(info.addr), -1, 0);
      vRandom := vRandom[..|vRandom| - 1];
      mapAddr := mapAddr - {info.addr};
      mapInfo := mapInfo - {id};
      nNew := nNew - 1;
    }

    method ClearNew(bucket: nat, pos: nat)
      requires CellClearable(S(), bucket, pos)
      requires vvNew[bucket][pos] != EMPTY ==>
                 !mapInfo[vvNew[bucket][pos]].inTried && mapInfo[vvNew[bucket][pos]].refCount > 0
      modifies this
      ensures S() == NewCleared(hasher, old(S()), bucket, pos)
      ensures triedCollisions == old(triedCollisions) && lastGood == old(lastGood)
    {
      if vvNew[bucket][pos] != EMPTY {
        var id := vvNew[bucket][pos];
        mapInfo := mapInfo[id := mapInfo[id].(refCount := mapInfo[id].refCount - 1)];
        vvNew := Put(vvNew, bucket, pos, EMPTY);
        if mapInfo[id].refCount == 0 {
          Delete(id);
        }
      }
    }

    /** The first loop of MakeTried: the entry leaves every new bucket, starting at its home. */
    method LeaveNew(id: int)
      requires Ok({}, {}) && id in mapInfo && !mapInfo[id].inTried && mapInfo[id].refCount > 0
      modifies this
      ensures Ok({id}, {}) && mapAddr == old(mapAddr) && vvTried == old(vvTried) && nIdCount == old(nIdCount)
      ensures id in old(mapInfo) && mapInfo == WithRefCount(old(mapInfo), id, 0)
      ensures old(mapInfo)[id].addr in old(View()) &&
              View() == old(View())[old(mapInfo)[id].addr := Known(old(mapInfo)[id].source, New({}))]
      ensures triedCollisions == old(triedCollisions) && lastGood == old(lastGood)
    {
      hide BookOk, BookPlaces, Leaving, LeavingPlaces;
      var a := mapInfo[id].addr;
      var start := hasher.NewBucket(a, mapInfo[id].source);
      ghost var s0 := S();
      LeavingStarts(hasher, s0, id, start);
      var n := 0;
      while n < NEW_BUCKETS
        invariant 0 <= n <= NEW_BUCKETS
        invariant Leaving(hasher, s0, S(), id, start, n) && LeavingPlaces(hasher, s0, S(), id)
        invariant id in mapInfo && mapInfo[id].refCount != 0 && mapInfo[id].addr == a && Shaped(vvNew, NEW_BUCKETS)
        invariant triedCollisions == old(triedCollisions) && lastGood == old(lastGood)
      {
        LeavingOnward(hasher, s0, S(), id, start, n);
        LeavingPlacesOnward(hasher, s0, S(), id, start, n);
        var bucket := (start + n) % NEW_BUCKETS;
        var pos := hasher.NewPos(a, bucket);
        if vvNew[bucket][pos] == id {
          vvNew := Put(vvNew, bucket, pos, EMPTY);
          mapInfo := mapInfo[id := mapInfo[id].(refCount := mapInfo[id].refCount - 1)];
        }
        n := n + 1;
        if mapInfo[id].refCount == 0 {
          break;
        }
      }
      LeavingEnds(hasher, s0, S(), id, start, n);
    }

    method LeaveTriedSlot(bucket: nat, pos: nat) returns (id: int)
      requires bucket < |vvTried| && pos < |vvTried[bucket]| && vvTried[bucket][pos] in mapInfo
      modifies this
      ensures id == old(vvTried)[bucket][pos] && S() == TriedLeft(hasher, old(S()), bucket, pos)
      ensures triedCollisions == old(triedCollisions) && lastGood == old(lastGood)
    {
      id := vvTried[bucket][pos];
      mapInfo := mapInfo[id := mapInfo[id].(inTried := false)];
      vvTried := Put(vvTried, bucket, pos, EMPTY);
      nTried := nTried - 1;
      networkCounts := Bump(networkCounts, hasher.Network(mapInfo[id].addr), 0, -1);
    }

    method EnterNewCell(bucket: nat, pos: nat, id: int)
      requires bucket < |vvNew| && pos < |vvNew[bucket]| && id in mapInfo && mapInfo[id].refCount == 0
      modifies this
      ensures S() == NewEntered(hasher, old(S()), bucket, pos, id)
      ensures triedCollisions == old(triedCollisions) && lastGood == old(lastGood)
    {
      mapInfo := mapInfo[id := mapInfo[id].(refCount := 1)];
      vvNew := Put(vvNew, bucket, pos, id);
      nNew := nNew + 1;
      networkCounts := Bump(networkCounts, hasher.Network(mapInfo[id].addr), 1, 0);
    }

    /** The tried entry of a slot goes back to new. `id` is the entry that will take the slot. */
    method Evict(bucket: nat, pos: nat, id: int)
      requires bucket < TRIED_BUCKETS && pos < BUCKET_SIZE
      requires Ok({id}, {id}) && vvTried[bucket][pos] != EMPTY
      modifies this
      ensures Ok({id}, {id}) && vvTried == Put(old(vvTried), bucket, pos, EMPTY)
      ensures nIdCount == old(nIdCount) && StatsKept(old(mapInfo), mapInfo, {})
      ensures var e := old(vvTried)[bucket][pos];
              && e in old(mapInfo) && old(mapInfo)[e].addr in old(View())
              && View() == Evicted(hasher, old(View()), old(mapInfo)[e].addr)
      ensures triedCollisions == old(triedCollisions) && lastGood == old(lastGood)
    {
      hide BookOk, BookPlaces, Cleared;
      TriedLeftPlaces(hasher, S(), {id}, {id}, bucket, pos);
      TriedLeftOk(hasher, S(), {id}, {id}, bucket, pos);
      var idEvict := LeaveTriedSlot(bucket, pos);
      ghost var s1, both := S(), {id} + {idEvict};
      var e := mapInfo[idEvict].addr;
      var newBucket := hasher.NewBucket(e, mapInfo[idEvict].source);
      var newPos := hasher.NewPos(e, newBucket);
      EvictionPlaces(hasher, s1, e, idEvict, both, both);
      EvictionOk(hasher, s1, e, idEvict, both, both);
      ClearNew(newBucket, newPos);
      assert vvNew[newBucket][newPos] == EMPTY;
      EnterNewCell(newBucket, newPos, idEvict);
      assert both - {idEvict} == {id};
    }

    method LeaveNewCounters(id: int)
      requires id in mapInfo
      modifies this
      ensures S() == Uncounted(hasher, old(S()), id)
      ensures triedCollisions == old(triedCollisions) && lastGood == old(lastGood)
    {
      nNew := nNew - 1;
      networkCounts := Bump(networkCounts, hasher.Network(mapInfo[id].addr), -1, 0);
    }

    method EnterTriedSlot(id: int)
      requires id in mapInfo && Shaped(vvTried, TRIED_BUCKETS)
      modifies this
      ensures S() == TriedEntered(hasher, old(S()), id)
      ensures triedCollisions == old(triedCollisions) && lastGood == old(lastGood)
    {
      var a := mapInfo[id].addr;
      vvTried := Put(vvTried, hasher.TriedBucket(a), hasher.TriedPos(a), id);
      nTried := nTried + 1;
      mapInfo := mapInfo[id := mapInfo[id].(inTried := true)];
      networkCounts := Bump(networkCounts, hasher.Network(a), 0, 1);
    }

    /** Moves an entry from new to tried, evicting whoever stands in its slot; none of the
        source's assertions can fail on the way. */
    method MakeTried(id: int) returns (ghost evicted: Option<Service>)
      requires Ok({}, {}) && id in mapInfo && !mapInfo[id].inTried && mapInfo[id].refCount > 0
      modifies this
      ensures Ok({}, {}) && StatsKept(old(mapInfo), mapInfo, {id}) && id in mapInfo && mapInfo[id].inTried
      ensures Onward(old(S()), S())
      ensures TriedCell(hasher, vvTried, old(mapInfo)[id].addr) == id
      ensures var a := old(mapInfo)[id].addr;
              && a in old(View()) && Evictee(hasher, old(View()), a, evicted)
              && (evicted.Some? ==> evicted.value in old(View()))
              && View() == MovedToTried(hasher, old(View()), a, evicted)
      ensures triedCollisions == old(triedCollisions) && lastGood == old(lastGood)
    {
      hide BookOk, BookPlaces, Evicted, Evictee;
      var a := mapInfo[id].addr;
      evicted := EvicteeOf(hasher, S(), a);
      MayMove(hasher, S(), a, id);
      LeaveNew(id);
      UncountedOk(hasher, S(), {id}, {}, id);
      UncountedPlaces(hasher, S(), id);
      LeaveNewCounters(id);
      assert {} + {id} == {id};
      var bucket := hasher.TriedBucket(a);
      var pos := hasher.TriedPos(a);
      if vvTried[bucket][pos] != EMPTY {
        Evict(bucket, pos, id);
      }
      assert vvTried[bucket][pos] == EMPTY;
      TriedEnteredDone(hasher, S(), id);
      EnterTriedSlot(id);
    }

    /** The update of a known entry by a new announcement. */
    method Refresh(id: int, addr: Address, penalty: int, now: int)
      requires Ok({}, {}) && id in mapInfo
      modifies this
      ensures Ok({}, {}) && View() == old(View())
      ensures S() == old(S()).(infos := mapInfo)
      ensures mapInfo == old(mapInfo)[id := Refreshed(old(mapInfo)[id], addr, penalty, now)]
      ensures triedCollisions == old(triedCollisions) && lastGood == old(lastGood)
    {
      hide BookOk, BookPlaces;
      ghost var s0 := S();
      var info := mapInfo[id];
      var currentlyOnline := now - addr.time < DAY;
      var updateInterval := if currentlyOnline then HOUR else DAY;
      if info.time < addr.time - updateInterval - penalty {
        mapInfo := mapInfo[id := mapInfo[id].(time := Max(0, addr.time - penalty))];
      }
      mapInfo := mapInfo[id := mapInfo[id].(services := mapInfo[id].services + addr.services)];
      assert Touched(s0.infos, mapInfo);
      TouchedOk(hasher, s0, mapInfo, {}, {});
    }

    method GainCell(bucket: nat, pos: nat, id: int)
      requires bucket < |vvNew| && pos < |vvNew[bucket]| && id in mapInfo
      modifies this
      ensures S() == CellGained(old(S()), bucket, pos, id)
      ensures triedCollisions == old(triedCollisions) && lastGood == old(lastGood)
    {
      mapInfo := mapInfo[id := mapInfo[id].(refCount := mapInfo[id].refCount + 1)];
      vvNew := Put(vvNew, bucket, pos, id);
    }

    /** The second half of AddSingle: an entry asks for a cell of new. An entry that was created
        for this and does not get the cell is deleted again. */
    method RequestCell(id: int, bucket: nat, pos: nat, now: int, ghost loose: set<int>) returns (inserted: bool)
      requires Ok(loose, {}) && id in mapInfo && !mapInfo[id].inTried
      requires loose == (if mapInfo[id].refCount == 0 then {id} else {})
      requires mapInfo[id].refCount < NEW_BUCKETS_PER_ADDRESS
      requires bucket < NEW_BUCKETS && pos == hasher.NewPos(mapInfo[id].addr, bucket)
      modifies this
      ensures Ok({}, {}) && StatsKept(old(mapInfo), mapInfo, {}) && vvTried == old(vvTried) && nIdCount == old(nIdCount)
      ensures inserted || old(mapInfo)[id].refCount != 0 ==> id in mapInfo
      ensures triedCollisions == old(triedCollisions) && lastGood == old(lastGood)
      ensures var cell := old(vvNew)[bucket][pos];
              inserted <==> cell == EMPTY || (cell != id && cell in old(mapInfo) &&
                              (IsTerrible(old(mapInfo)[cell], now) ||
                               (old(mapInfo)[cell].refCount > 1 && old(mapInfo)[id].refCount == 0)))
      ensures var a, cleared := old(mapInfo)[id].addr, Cleared(hasher, old(View()), bucket, pos);
              if inserted then a in cleared && cleared[a].place.New? && View() == Filled(cleared, a, bucket)
              else View() == if old(mapInfo)[id].refCount == 0 then old(View()) - {a} else old(View())
    {
      hide BookOk, BookPlaces, Cleared, Deleted, NewCleared;
      inserted := vvNew[bucket][pos] == EMPTY;
      NotEmptyEntry(hasher, S(), loose, {}, id);
      ghost var s0 := S();
      if vvNew[bucket][pos] != id {
        if !inserted {
          CellHolder(hasher, S(), loose, {}, bucket, pos);
          var existing := mapInfo[vvNew[bucket][pos]];
          if IsTerrible(existing, now) || (existing.refCount > 1 && mapInfo[id].refCount == 0) {
            inserted := true;
          }
        }
        if inserted {
          InsertedOk(hasher, S(), loose, bucket, pos, id);
          InsertedPlaces(hasher, S(), loose, bucket, pos, id);
          ClearNew(bucket, pos);
          GainCell(bucket, pos, id);
        } else if mapInfo[id].refCount == 0 {
          DeletedOk(hasher, S(), loose, {}, id);
          DeletedStats(hasher, S(), loose, {}, id);
          assert loose - {id} == {};
          Delete(id);
        }
      } else {
        HeldCell(hasher, S(), loose, bucket, pos);
      }
      if inserted {
        EntryStays(hasher, s0, S(), loose, id);
      }
    }

    /** The first half of AddSingle for an address that is not known. */
    method Announce(addr: Address, source: int, penalty: int) returns (id: int)
      requires Ok({}, {}) && addr.service !in mapAddr
      modifies this
      ensures id == old(nIdCount) && nIdCount == id + 1 && id !in old(mapInfo) && Ok({id}, {})
      ensures id in mapInfo && mapInfo == old(mapInfo)[id := mapInfo[id]]
      ensures mapInfo[id] == FreshInfo(addr, source, mapInfo[id].randomPos).(time := Max(0, addr.time - penalty))
      ensures addr.service !in old(View()) && View() == old(View())[addr.service := Known(source, New({}))]
      ensures vvNew == old(vvNew) && vvTried == old(vvTried)
      ensures triedCollisions == old(triedCollisions) && lastGood == old(lastGood)
    {
      hide BookOk, BookPlaces;
      AnnouncedOk(hasher, S(), addr, source, Max(0, addr.time - penalty));
      id := Create(addr, source);
      mapInfo := mapInfo[id := mapInfo[id].(time := Max(0, mapInfo[id].time - penalty))];
    }

    /** AddSingle for an address that is not known yet. */
    method AddUnknown(addr: Address, source: int, penalty: int, now: int) returns (inserted: bool)
      requires Valid() && addr.service !in mapAddr
      modifies this
      ensures Valid() && Onward(old(S()), S()) && (old(TimesOk(mapInfo)) ==> TimesOk(mapInfo))
      ensures StatsKept(old(mapInfo)[old(nIdCount) := Newcomer(addr, source, penalty)], mapInfo, {})
      ensures inserted ==> old(nIdCount) in mapInfo
      ensures vvTried == old(vvTried) && triedCollisions == old(triedCollisions) && lastGood == old(lastGood)
      ensures var a := addr.service;
              var bucket := hasher.NewBucket(a, source);
              var pos := hasher.NewPos(a, bucket);
              && (inserted <==> Gets(old(S()), a, bucket, pos, now))
              && var cleared := Cleared(hasher, Announced(old(View()), a, source), bucket, pos);
                 if inserted then a in cleared && cleared[a].place.New? && View() == Filled(cleared, a, bucket)
                 else View() == old(View())
    {
      hide BookOk, BookPlaces, Colliding, Onward, Cleared, IsTerrible, TimesOk, StatsKept;
      ghost var s0, home := S(), hasher.NewBucket(addr.service, source);
      ghost var cell := vvNew[home][hasher.NewPos(addr.service, home)];
      if cell != EMPTY {
        CellHolder(hasher, s0, {}, {}, home, hasher.NewPos(addr.service, home));
        OneEntry(hasher, s0, {}, {}, cell, cell);
      }
      var id := Announce(addr, source, penalty);
      ghost var info := mapInfo[id];
      var bucket := hasher.NewBucket(mapInfo[id].addr, source);
      var pos := hasher.NewPos(mapInfo[id].addr, bucket);
      inserted := RequestCell(id, bucket, pos, now, {id});
      ChangedThenKept(s0, id, info, S());
      NewcomerKept(s0.infos, id, addr, source, penalty, info, mapInfo);
      CollidingOnward(hasher, s0, S(), triedCollisions);
    }

    /** AddSingle for an address that is known and, once refreshed, asks for another cell. */
    method AddKnown(id: int, addr: Address, source: int, penalty: int, now: int, lucky: bool) returns (inserted: bool)
      requires Valid() && id in mapInfo && mapInfo[id].addr == addr.service && hasher.Routable(addr.service)
      modifies this
      ensures Valid() && Onward(old(S()), S()) && (old(TimesOk(mapInfo)) ==> TimesOk(mapInfo))
      ensures id in mapInfo
      ensures StatsKept(old(mapInfo)[id := Refreshed(old(mapInfo)[id], addr, penalty, now)], mapInfo, {})
      ensures vvTried == old(vvTried) && triedCollisions == old(triedCollisions) && lastGood == old(lastGood)
      ensures var a := addr.service;
              var bucket := hasher.NewBucket(a, source);
              var pos := hasher.NewPos(a, bucket);
              && (inserted <==>
                    Wants(hasher, old(S()), addr, penalty, now, lucky) && Gets(old(S()), a, bucket, pos, now))
              && var cleared := Cleared(hasher, Announced(old(View()), a, source), bucket, pos);
                 if inserted then a in cleared && cleared[a].place.New? && View() == Filled(cleared, a, bucket)
                 else View() == old(View())
    {
      hide BookOk, BookPlaces, Colliding, Onward, Cleared, IsTerrible, RefreshedTime, TimesOk, StatsKept;
      ghost var s0, home := S(), hasher.NewBucket(addr.service, source);
      ghost var cell := vvNew[home][hasher.NewPos(addr.service, home)];
      OneEntry(hasher, s0, {}, {}, id, id);
      EntryAndPlace(hasher, s0, id);
      if cell != EMPTY {
        CellHolder(hasher, s0, {}, {}, home, hasher.NewPos(addr.service, home));
        OneEntry(hasher, s0, {}, {}, cell, id);
      }
      Refresh(id, addr, penalty, now);
      ghost var info := mapInfo[id];
      NothingKept(mapInfo);
      ChangedThenKept(s0, id, info, S());
      KeptTimes(s0.infos, id);
      CollidingOnward(hasher, s0, S(), triedCollisions);
      if addr.time <= mapInfo[id].time || mapInfo[id].inTried || mapInfo[id].refCount == NEW_BUCKETS_PER_ADDRESS {
        return false;
      }
      if mapInfo[id].refCount > 0 && !lucky {
        return false;
      }
      References(hasher, S(), id);
      var bucket := hasher.NewBucket(mapInfo[id].addr, source);
      var pos := hasher.NewPos(mapInfo[id].addr, bucket);
      inserted := RequestCell(id, bucket, pos, now, {});
      ChangedThenKept(s0, id, info, S());
      CollidingOnward(hasher, s0, S(), triedCollisions);
    }

    /** One announced address. It is inserted exactly when it asks for a cell and gets it; then
        the cell is cleared for it, and otherwise no address changes its place. A known address is
        refreshed in any case, and no other entry changes its statistics. */
    method AddSingle(addr: Address, source: int, timePenalty: int, now: int, lucky: bool) returns (inserted: bool)
      requires Valid()
      modifies this
      ensures Valid() && Onward(old(S()), S()) && (old(TimesOk(mapInfo)) ==> TimesOk(mapInfo))
      ensures vvTried == old(vvTried) && triedCollisions == old(triedCollisions) && lastGood == old(lastGood)
      ensures AddedOne(hasher, old(S()), addr, source, timePenalty, now, lucky, inserted, S())
    {
      hide BookOk, BookPlaces, Colliding, Onward, Cleared, IsTerrible, RefreshedTime, TimesOk, Announced, Filled, Gets,
           StatsKept, Refreshed, Newcomer;
      if !hasher.Routable(addr.service) {
        StandingStill(hasher, S());
        return false;
      }
      var penalty := if addr.service.ip == source then 0 else timePenalty;
      var found, id := Find(addr.service);
      if found {
        inserted := AddKnown(id, addr, source, penalty, now, lucky);
      } else {
        inserted := AddUnknown(addr, source, penalty, now);
      }
    }

    /** Announced addresses are taken one after the other; `lucky` and `clock` give the outcome
        of each stochastic test and the time at which it is made. `states` are the states between
        them, and `took` says who was inserted. */
    method Add(addrs: seq<Address>, source: int, timePenalty: int, clock: int -> int, lucky: int -> bool)
      returns (added: bool, ghost states: seq<Book>, ghost took: seq<bool>)
      requires Valid()
      modifies this
      ensures Valid() && Onward(old(S()), S()) && (old(TimesOk(mapInfo)) ==> TimesOk(mapInfo))
      ensures |took| == |addrs| && |states| == |addrs| + 1 && states[0] == old(S()) && states[|addrs|] == S()
      ensures forall i :: 0 <= i < |addrs| ==>
                AddedOne(hasher, states[i], addrs[i], source, timePenalty, clock(i), lucky(i), took[i], states[i + 1])
      ensures added <==> exists i :: 0 <= i < |took| && took[i]
      ensures !added ==> View() == old(View())
      ensures Joined(hasher, old(View()), View())
      ensures triedCollisions == old(triedCollisions) && lastGood == old(lastGood)
    {
      hide BookOk, BookPlaces, Colliding, Onward, TimesOk, AddedOne, Joined;
      ghost var s0 := S();
      StandingStill(hasher, s0);
      NobodyJoined(hasher, View());
      var count := 0;
      states, took := [s0], [];
      for i := 0 to |addrs|
        invariant Valid() && Onward(s0, S()) && (old(TimesOk(mapInfo)) ==> TimesOk(mapInfo))
        invariant |took| == i && |states| == i + 1 && states[0] == s0 && states[i] == S()
        invariant forall k :: 0 <= k < i ==>
                    AddedOne(hasher, states[k], addrs[k], source, timePenalty, clock(k), lucky(k), took[k],
                             states[k + 1])
        invariant count >= 0 && (count == 0 ==> View() == old(View()))
        invariant count > 0 <==> exists k :: 0 <= k < i && took[k]
        invariant Joined(hasher, old(View()), View())
        invariant triedCollisions == old(triedCollisions) && lastGood == old(lastGood)
      {
        ghost var s1, took1 := S(), took;
        var inserted := AddSingle(addrs[i], source, timePenalty, clock(i), lucky(i));
        OnwardTransitively(s0, s1, S());
        AddedWho(hasher, s0, s1, addrs[i], source, timePenalty, clock(i), lucky(i), inserted, S());
        count := count + if inserted then 1 else 0;
        states, took := states + [S()], took + [inserted];
        assert forall k :: 0 <= k < i ==> took[k] == took1[k];
        assert took[i] == inserted;
      }
      return count > 0, states, took;
    }

    /** An update of statistics that no structure depends on. */
    method Touch(id: int, info: AddrInfo)
      requires Valid() && id in mapInfo && Touched(mapInfo, mapInfo[id := info])
      modifies this`mapInfo
      ensures Valid() && Onward(old(S()), S())
      ensures View() == old(View()) && mapInfo == old(mapInfo)[id := info]
    {
      hide BookOk, BookPlaces, Colliding;
      ghost var s0 := S();
      TouchedOk(hasher, s0, mapInfo[id := info], {}, {});
      mapInfo := mapInfo[id := info];
      CollidingOnward(hasher, s0, S(), triedCollisions);
    }

    method Attempt(addr: Service, countFailure: bool, time: int)
      requires Valid()
      modifies this`mapInfo
      ensures Valid() && Onward(old(S()), S()) && View() == old(View())
      ensures addr !in old(View()) ==> mapInfo == old(mapInfo)
      ensures addr in old(View()) ==>
                && addr in mapAddr && mapAddr[addr] in old(mapInfo)
                && var info := old(mapInfo)[mapAddr[addr]];
                   mapInfo == old(mapInfo)[mapAddr[addr] := Attempted(info, countFailure, time, lastGood)]
      ensures old(TimesOk(mapInfo)) ==> (TimesOk(mapInfo) <==> addr !in old(mapAddr) || time >= 0)
    {
      hide BookOk, BookPlaces, Colliding, Onward;
      var found, id := Find(addr);
      if !found {
        StandingStill(hasher, S());
        return;
      }
      var info := mapInfo[id].(lastTry := time);
      if countFailure && info.lastCountAttempt < lastGood {
        info := info.(lastCountAttempt := time, attempts := info.attempts + 1);
      }
      Touch(id, info);
    }

    method Connected(addr: Service, time: int)
      requires Valid()
      modifies this`mapInfo
      ensures Valid() && Onward(old(S()), S()) && View() == old(View()) && (old(TimesOk(mapInfo)) ==> TimesOk(mapInfo))
      ensures addr !in old(View()) ==> mapInfo == old(mapInfo)
      ensures addr in old(View()) ==>
                && addr in mapAddr && mapAddr[addr] in old(mapInfo)
                && var info := old(mapInfo)[mapAddr[addr]];
                   mapInfo == old(mapInfo)[mapAddr[addr] :=
                                             if time - info.time > 20 * MINUTE then info.(time := time) else info]
    {
      hide BookOk, BookPlaces, Colliding, Onward;
      var found, id := Find(addr);
      if found && time - mapInfo[id].time > 20 * MINUTE {
        Touch(id, mapInfo[id].(time := time));
      } else {
        StandingStill(hasher, S());
      }
    }

    method SetServices(addr: Service, services: set<int>)
      requires Valid()
      modifies this`mapInfo
      ensures Valid() && Onward(old(S()), S()) && View() == old(View()) && (old(TimesOk(mapInfo)) ==> TimesOk(mapInfo))
      ensures addr !in old(View()) ==> mapInfo == old(mapInfo)
      ensures addr in old(View()) ==>
                && addr in mapAddr && mapAddr[addr] in old(mapInfo)
                && mapInfo == old(mapInfo)[mapAddr[addr] := old(mapInfo)[mapAddr[addr]].(services := services)]
    {
      hide BookOk, BookPlaces, Colliding, Onward;
      var found, id := Find(addr);
      if found {
        Touch(id, mapInfo[id].(services := services));
      } else {
        StandingStill(hasher, S());
      }
    }

    /** MakeTried between consistent states. */
    method Promote(id: int) returns (ghost evicted: Option<Service>)
      requires Valid() && id in mapInfo && !mapInfo[id].inTried && mapInfo[id].refCount > 0
      modifies this
      ensures Valid() && Onward(old(S()), S())
      ensures StatsKept(old(mapInfo), mapInfo, {id}) && id in mapInfo && mapInfo[id].inTried
      ensures var a := old(mapInfo)[id].addr;
              && a in old(View()) && Evictee(hasher, old(View()), a, evicted)
              && (evicted.Some? ==> evicted.value in old(View()))
              && View() == MovedToTried(hasher, old(View()), a, evicted)
      ensures triedCollisions == old(triedCollisions) && lastGood == old(lastGood)
    {
      hide BookOk, BookPlaces, MovedToTried, Evictee, Colliding, Onward, TimesOk, StatsKept;
      ghost var s1 := S();
      evicted := MakeTried(id);
      CollidingOnward(hasher, s1, S(), triedCollisions);
    }

    /** The statistics of a successful connection. */
    method NoteSuccess(id: int, time: int)
      requires Valid() && id in mapInfo
      modifies this`mapInfo
      ensures Valid() && Onward(old(S()), S()) && View() == old(View()) && SucceededAt(old(mapInfo), mapInfo, id, time)
      ensures mapInfo == old(mapInfo)[id := old(mapInfo)[id].(lastSuccess := time, lastTry := time, attempts := 0)]
      ensures old(TimesOk(mapInfo)) ==> (TimesOk(mapInfo) <==> time > 0 || (time == 0 && !old(mapInfo)[id].inTried))
    {
      hide BookOk, BookPlaces, Colliding, Onward, TimesOk, Touched, SucceededAt;
      ghost var infos := mapInfo;
      TouchedOne(mapInfo, id, mapInfo[id].(lastSuccess := time, lastTry := time, attempts := 0));
      Touch(id, mapInfo[id].(lastSuccess := time, lastTry := time, attempts := 0));
      if TimesOk(infos) {
        SuccessTimes(infos, id, time);
      }
      SuccessNoted(infos, mapInfo, id, time);
    }

    /** A collision is recorded if there is room for it. */
    method RecordCollision(id: int)
      requires Valid() && id in mapInfo && TriedCell(hasher, vvTried, mapInfo[id].addr) != EMPTY
      modifies this`triedCollisions
      ensures Valid()
      ensures triedCollisions == if |old(triedCollisions)| < SET_TRIED_COLLISION_SIZE then old(triedCollisions) + {id}
                                 else old(triedCollisions)
    {
      hide BookOk, Colliding;
      if |triedCollisions| < SET_TRIED_COLLISION_SIZE {
        CollisionAdded(hasher, S(), triedCollisions, id);
        triedCollisions := triedCollisions + {id};
      }
    }

    /** A successful connection. An address that is new moves to tried, unless the caller wants
        the occupant of its slot tested first. */
    method Good(addr: Service, testBeforeEvict: bool, time: int) returns (moved: bool, ghost evicted: Option<Service>)
      requires Valid()
      modifies this
      ensures Valid() && Onward(old(S()), S())
      ensures lastGood == time
      ensures old(TimesOk(mapInfo)) ==>
                (TimesOk(mapInfo) <==> addr !in old(View()) || time > 0 ||
                                       (time == 0 && !moved && old(View())[addr].place.New?))
      ensures addr !in old(View()) ==> mapInfo == old(mapInfo)
      ensures addr in old(View()) ==>
                && addr in old(mapAddr) && old(mapAddr)[addr] in old(mapInfo)
                && SucceededAt(old(mapInfo), mapInfo, old(mapAddr)[addr], time)
      ensures moved <==> old(addr in View() && View()[addr].place.New? &&
                             (testBeforeEvict ==> TriedCell(hasher, vvTried, addr) == EMPTY))
      ensures if moved then Evictee(hasher, old(View()), addr, evicted) &&
                            (evicted.Some? ==> evicted.value in old(View())) &&
                            View() == MovedToTried(hasher, old(View()), addr, evicted)
              else View() == old(View())
      ensures triedCollisions == old(
                if addr in View() && View()[addr].place.New? && testBeforeEvict &&
                   TriedCell(hasher, vvTried, addr) != EMPTY && |triedCollisions| < SET_TRIED_COLLISION_SIZE
                then triedCollisions + {mapAddr[addr]} else triedCollisions)
    {
      hide BookOk, BookPlaces, MovedToTried, Evictee, Colliding, Onward, TimesOk, StatsKept, Touched, SucceededAt;
      evicted := None;
      lastGood := time;
      ghost var s0 := S();
      StandingStill(hasher, s0);
      var found, id := Find(addr);
      if !found {
        return false, None;
      }
      EntryAndPlace(hasher, s0, id);
      NoteSuccess(id, time);
      if mapInfo[id].inTried {
        return false, None;
      }
      References(hasher, S(), id);
      var bucket := hasher.TriedBucket(mapInfo[id].addr);
      var pos := hasher.TriedPos(mapInfo[id].addr);
      if testBeforeEvict && vvTried[bucket][pos] != EMPTY {
        RecordCollision(id);
        return false, None;
      } else {
        ghost var s1 := S();
        evicted := Promote(id);
        if TimesOk(s0.infos) {
          PromotedTimes(s0.infos, s1.infos, mapInfo, id, time);
        }
        OnwardTransitively(s0, s1, S());
        SuccessKept(s0.infos, s1.infos, mapInfo, id, time);
        return true, evicted;
      }
    }

    /** What becomes of one collision: it is dropped, it waits, or it is decided and its address
        replaces the occupant of the slot. */
    method ResolveOne(id: int, now: int) returns (erase: bool)
      requires Valid() && id in triedCollisions
      modifies this
      ensures Valid() && Onward(old(S()), S()) && (old(TimesOk(mapInfo)) ==> TimesOk(mapInfo))
      ensures triedCollisions == old(triedCollisions)
      ensures ResolvedOne(hasher, old(S()), id, now, erase, S())
    {
      hide BookOk, BookPlaces, MovedToTried, Colliding, Occupies, TimesOk, Onward, SucceededAt;
      erase := false;
      StandingStill(hasher, S());
      if id !in mapInfo {
        return true;
      }
      LiveCollision(hasher, S(), triedCollisions, id);
      OccupantIsKnown(hasher, S(), mapInfo[id].addr);
      var a := mapInfo[id].addr;
      var bucket := hasher.TriedBucket(a);
      var pos := hasher.TriedPos(a);
      if !hasher.valid(a) {
        erase := true;
      } else if vvTried[bucket][pos] != EMPTY {
        var idOld := vvTried[bucket][pos];
        if now - mapInfo[idOld].lastSuccess < REPLACEMENT {
          erase := true;
        } else if now - mapInfo[idOld].lastTry < REPLACEMENT {
          if now - mapInfo[idOld].lastTry > MINUTE {
            Replace(id, now);
            erase := true;
          }
        } else if now - mapInfo[id].lastSuccess > TEST_WINDOW {
          Replace(id, now);
          erase := true;
        }
      } else {
        assert false;
      }
    }

    /** The call of Good_ that resolves a collision in favour of its entry. */
    method Replace(id: int, now: int)
      requires Valid() && id in triedCollisions && id in mapInfo
      requires TriedCell(hasher, vvTried, mapInfo[id].addr) in mapInfo
      requires Decides(mapInfo[id], mapInfo[TriedCell(hasher, vvTried, mapInfo[id].addr)], now)
      modifies this
      ensures Valid() && Onward(old(S()), S()) && (old(TimesOk(mapInfo)) ==> TimesOk(mapInfo))
      ensures triedCollisions == old(triedCollisions)
      ensures SucceededAt(old(mapInfo), mapInfo, id, now)
      ensures var a := old(mapInfo)[id].addr;
              var occupant := old(mapInfo)[TriedCell(hasher, old(vvTried), a)].addr;
              && a in old(View()) && occupant in old(View())
              && View() == if old(mapInfo)[id].inTried then old(View())
                           else MovedToTried(hasher, old(View()), a, Some(occupant))
    {
      hide BookOk, BookPlaces, MovedToTried, Evictee, Colliding, Occupies, TimesOk, Onward, SucceededAt, Decides;
      LiveCollision(hasher, S(), triedCollisions, id);
      OccupantIsKnown(hasher, S(), mapInfo[id].addr);
      OneEntry(hasher, S(), {}, {}, id, id);
      var a := mapInfo[id].addr;
      ghost var s0, occupant := S(), mapInfo[TriedCell(hasher, vvTried, a)].addr;
      if TimesOk(mapInfo) {
        DecidedAfterTheEpoch(s0, mapInfo[id], TriedCell(hasher, vvTried, a), now);
      }
      var moved;
      ghost var evicted;
      moved, evicted := Good(a, false, now);
      if moved {
        SomeEvictee(hasher, BookPlaces(hasher, s0), a, occupant, evicted);
        OneOccupant(hasher, s0, a, evicted.value);
      }
    }

    /** Every collision is looked at once, in whatever order the set has. `states` are the states
        between the decisions, and `erased` says which collisions are no longer recorded. */
    method ResolveCollisions(clock: int -> int)
      returns (ghost order: seq<int>, ghost states: seq<Book>, ghost erased: seq<bool>)
      requires Valid()
      modifies this
      ensures Valid() && Onward(old(S()), S()) && (old(TimesOk(mapInfo)) ==> TimesOk(mapInfo))
      ensures Distinct(order) && forall id :: id in order <==> id in old(triedCollisions)
      ensures |erased| == |order| && |states| == |order| + 1 && states[0] == old(S()) && states[|order|] == S()
      ensures forall i :: 0 <= i < |order| ==>
                ResolvedOne(hasher, states[i], order[i], clock(order[i]), erased[i], states[i + 1])
      ensures forall i :: 0 <= i < |order| ==> (order[i] in triedCollisions <==> !erased[i])
      ensures triedCollisions <= old(triedCollisions)
      ensures Joined(hasher, old(View()), View())
    {
      hide BookOk, BookPlaces, Colliding, TimesOk, Onward, ResolvedOne, Joined;
      ghost var s0 := S();
      StandingStill(hasher, s0);
      NobodyJoined(hasher, View());
      order, states, erased := [], [s0], [];
      var todo := triedCollisions;
      while todo != {}
        invariant Valid() && Onward(s0, S()) && (old(TimesOk(mapInfo)) ==> TimesOk(mapInfo))
        invariant todo <= triedCollisions <= old(triedCollisions)
        invariant Distinct(order) && forall id :: id in order <==> id in old(triedCollisions) && id !in todo
        invariant |erased| == |order| && |states| == |order| + 1 && states[0] == s0 && states[|order|] == S()
        invariant forall i :: 0 <= i < |order| ==>
                    ResolvedOne(hasher, states[i], order[i], clock(order[i]), erased[i], states[i + 1])
        invariant forall i :: 0 <= i < |order| ==> (order[i] in triedCollisions <==> !erased[i])
        invariant Joined(hasher, old(View()), View())
        decreases todo
      {
        ghost var some := SomeElement(todo);
        var id :| id in todo;
        ghost var s1 := S();
        var erase := ResolveOne(id, clock(id));
        OnwardTransitively(s0, s1, S());
        ResolvedWho(hasher, s0, s1, id, clock(id), erase, S());
        if erase {
          FewerColliding(hasher, S(), triedCollisions, id);
          triedCollisions := triedCollisions - {id};
        }
        todo := todo - {id};
        order, states, erased := order + [id], states + [S()], erased + [erase];
      }
    }

    /** A random collision's occupant, to be tested. The lookup of the occupant always succeeds. */
    method SelectTriedCollision() returns (r: Option<AddrInfo>)
      requires Valid()
      modifies this`triedCollisions
      ensures Valid()
      ensures r.None? ==> triedCollisions == {} || exists id :: id in old(triedCollisions) && id !in mapInfo
                                                          && triedCollisions == old(triedCollisions) - {id}
      ensures r.Some? ==> triedCollisions == old(triedCollisions)
      ensures r.Some? ==>
                exists id ::
                  id in triedCollisions && id in mapInfo && Occupies(hasher, View(), r.value.addr, mapInfo[id].addr)
    {
      hide BookOk, BookPlaces, Colliding, Occupies;
      if triedCollisions == {} {
        return None;
      }
      ghost var some := SomeElement(triedCollisions);
      var id :| id in triedCollisions;
      if id !in mapInfo {
        FewerColliding(hasher, S(), triedCollisions, id);
        triedCollisions := triedCollisions - {id};
        return None;
      }
      LiveCollision(hasher, S(), triedCollisions, id);
      var a := mapInfo[id].addr;
      return Some(mapInfo[vvTried[hasher.TriedBucket(a)][hasher.TriedPos(a)]]);
    }

    /** Which table Select_ searches, if any: there is always something to find in it, and nothing
        is searched only when nothing could be found. */
    method ChooseTable(newOnly: bool, network: Option<int>, coin: bool) returns (searchTried: Option<bool>)
      requires Valid()
      ensures searchTried.Some? ==> exists b: nat :: Offers(hasher, S(), searchTried.value, network, b)
      ensures searchTried == Some(true) ==> !newOnly
      ensures searchTried.None? ==> forall id :: !Selectable(hasher, S(), false, network, id) &&
                                                 (!newOnly ==> !Selectable(hasher, S(), true, network, id))
    {
      hide BookOk, Colliding, Selectable, Offers;
      CountersTell(hasher, S(), true, network);
      CountersTell(hasher, S(), false, network);
      SomeBucketOffers(hasher, S(), true, network);
      SomeBucketOffers(hasher, S(), false, network);
      NothingInRandom(hasher, S(), network);
      if vRandom == [] {
        return None;
      }
      var newCount, triedCount := nNew, nTried;
      if network.Some? {
        if network.value !in networkCounts {
          return None;
        }
        newCount, triedCount := networkCounts[network.value].nNew, networkCounts[network.value].nTried;
      }
      if newOnly && newCount == 0 {
        return None;
      }
      if newCount + triedCount == 0 {
        return None;
      }
      if newOnly || triedCount == 0 {
        return Some(false);
      } else if newCount == 0 {
        return Some(true);
      } else {
        return Some(coin);
      }
    }

    /** One pass of Select_ over a bucket, from a random position and around: it finds an entry
        exactly when the bucket holds one, and the entry it finds exists. */
    method ScanBucket(searchTried: bool, bucket: nat, start: nat, network: Option<int>) returns (id: int)
      requires Valid() && bucket < (if searchTried then TRIED_BUCKETS else NEW_BUCKETS) && start < BUCKET_SIZE
      ensures id != EMPTY ==> Selectable(hasher, S(), searchTried, network, id)
      ensures id != EMPTY <==> Offers(hasher, S(), searchTried, network, bucket)
    {
      hide BookOk, Colliding;
      EmptyIsNobody(hasher, S(), searchTried, network);
      for i := 0 to BUCKET_SIZE
        invariant forall p: nat :: p < BUCKET_SIZE && (p + BUCKET_SIZE - start) % BUCKET_SIZE < i ==>
          !Selectable(hasher, S(), searchTried, network, Cell(S(), searchTried, bucket, p))
      {
        var position := (start + i) % BUCKET_SIZE;
        id := if searchTried then vvTried[bucket][position] else vvNew[bucket][position];
        if id != EMPTY {
          CellIsSelectable(hasher, S(), searchTried, bucket, position);
          if network.None? || (id in mapInfo && hasher.Network(mapInfo[id].addr) == network.value) {
            return id;
          }
        }
      }
      return EMPTY;
    }

    /** A random entry of the rest comes to the front of it; what was taken before stays. */
    method Bring(n: nat, pos: nat, ghost filter: Filter)
      requires Ok({}, {}) && n <= pos < |vRandom| && forall i :: 0 <= i < |vRandom| ==> vRandom[i] in mapInfo
      modifies this
      ensures Ok({}, {}) && View() == old(View()) && SameButPositions(old(mapInfo), mapInfo)
      ensures S() == old(S()).(infos := mapInfo, random := vRandom) && |vRandom| == |old(vRandom)|
      ensures forall i :: 0 <= i < |vRandom| ==> vRandom[i] in mapInfo
      ensures Kept(mapInfo, vRandom[..n], filter) == old(Kept(mapInfo, vRandom[..n], filter))
      ensures triedCollisions == old(triedCollisions) && lastGood == old(lastGood)
    {
      hide BookOk, BookPlaces, SwappedBook, SameButPositions, Kept;
      ghost var infos1, front := mapInfo, vRandom[..n];
      SwapKeepsFront(hasher, S(), n, pos);
      SwapRandom(n, pos);
      RandomListsEntries(hasher, S());
      KeptAnywhere(infos1, mapInfo, front, filter);
    }

    /** A sample of the known addresses that pass the filter: no address twice, no more than asked
        for, and all that pass if that is fewer. Only positions in vRandom change. */
    method GetAddr(maxAddresses: nat, maxPct: nat, filter: Filter, rand: nat -> nat) returns (addresses: seq<Service>)
      requires Valid()
      modifies this
      ensures Valid() && View() == old(View()) && SameButPositions(old(mapInfo), mapInfo)
      ensures S() == old(S()).(infos := mapInfo, random := vRandom)
      ensures triedCollisions == old(triedCollisions) && lastGood == old(lastGood)
      ensures |addresses| <= SampleSize(|old(vRandom)|, maxAddresses, maxPct)
      ensures forall i, j :: 0 <= i < j < |addresses| ==> addresses[i] != addresses[j]
      ensures forall a :: a in addresses ==> a in mapAddr && mapAddr[a] in mapInfo && Keeps(filter, mapInfo[mapAddr[a]])
      ensures |addresses| < SampleSize(|old(vRandom)|, maxAddresses, maxPct) ==>
                forall a ::
                  a in mapAddr && mapAddr[a] in mapInfo && Keeps(filter, mapInfo[mapAddr[a]]) ==> a in addresses
    {
      hide BookOk, BookPlaces, Colliding, Onward, Keeps, Kept, SameButPositions, SwappedBook;
      var nNodes := |vRandom|;
      if maxPct != 0 {
        nNodes := maxPct * nNodes / 100;
      }
      if maxAddresses != 0 {
        nNodes := if maxAddresses < nNodes then maxAddresses else nNodes;
      }
      addresses := [];
      ghost var s0 := S();
      StandingStill(hasher, s0);
      SamePositionsHere(s0.infos);
      var n := 0;
      RandomListsEntries(hasher, S());
      KeptNone(mapInfo, vRandom, filter);
      while n < |vRandom| && |addresses| < nNodes
        invariant 0 <= n <= |vRandom| == |s0.random| && |addresses| <= nNodes
        invariant Ok({}, {}) && View() == old(View()) && SameButPositions(s0.infos, mapInfo)
        invariant S() == s0.(infos := mapInfo, random := vRandom)
        invariant triedCollisions == old(triedCollisions) && lastGood == old(lastGood)
        invariant forall i :: 0 <= i < |vRandom| ==> vRandom[i] in mapInfo
        invariant addresses == Kept(mapInfo, vRandom[..n], filter)
      {
        var pos := rand(n) % (|vRandom| - n) + n;
        ghost var infos1 := mapInfo;
        Bring(n, pos, filter);
        SamePositionsTransitively(s0.infos, infos1, mapInfo);
        KeptNext(mapInfo, vRandom, n, filter);
        if Keeps(filter, mapInfo[vRandom[n]]) {
          addresses := addresses + [mapInfo[vRandom[n]].addr];
        }
        n := n + 1;
      }
      Sampled(hasher, S(), n, filter);
      RenumberedOnward(hasher, s0, mapInfo, vRandom);
      CollidingOnward(hasher, s0, S(), triedCollisions);
      assert n == |vRandom| ==> vRandom[..n] == vRandom;
    }

    method ReadNew(n: nat, r: Record)
      requires |vRandom| == n
      modifies this
      ensures S() == NewLoaded(hasher, old(S()), r).(idCount := old(nIdCount))
      ensures triedCollisions == old(triedCollisions)
    {
      hide Bump;
      mapInfo := mapInfo[n := InfoOf(r, -1, false)];
      mapAddr := mapAddr[r.addr := n];
      mapInfo := mapInfo[n := mapInfo[n].(randomPos := |vRandom|)];
      vRandom := vRandom + [n];
      networkCounts := Bump(networkCounts, hasher.Network(r.addr), 1, 0);
    }

    method ReadNews(news: seq<Record>)
      requires nIdCount == 0 && vRandom == []
      modifies this
      ensures S() == NewsLoaded(hasher, old(S()), news) && triedCollisions == old(triedCollisions)
    {
      hide NewLoaded;
      ghost var s0 := S();
      for n := 0 to |news|
        invariant S() == NewsLoaded(hasher, s0, news[..n]).(idCount := 0) && |vRandom| == n
        invariant triedCollisions == old(triedCollisions)
      {
        assert news[..n + 1][..n] == news[..n];
        ReadingOn(hasher, NewsLoaded(hasher, s0, news[..n]), news[n]);
        ReadNew(n, news[n]);
      }
      assert news[..|news|] == news;
      nIdCount := |news|;
    }

    method ReadTried(r: Record) returns (lost: bool)
      requires Shaped(vvTried, TRIED_BUCKETS)
      modifies this
      ensures S().(nTried := nTried - if lost then 1 else 0) == TriedLoaded(hasher, old(S()), r)
      ensures triedCollisions == old(triedCollisions)
    {
      hide Bump;
      var info := InfoOf(r, -1, false);
      var bucket := hasher.TriedBucket(info.addr);
      var pos := hasher.TriedPos(info.addr);
      if hasher.valid(info.addr) && vvTried[bucket][pos] == EMPTY {
        info := info.(randomPos := |vRandom|, inTried := true);
        vRandom := vRandom + [nIdCount];
        mapInfo := mapInfo[nIdCount := info];
        mapAddr := mapAddr[info.addr := nIdCount];
        vvTried := Put(vvTried, bucket, pos, nIdCount);
        nIdCount := nIdCount + 1;
        networkCounts := Bump(networkCounts, hasher.Network(info.addr), 0, 1);
        return false;
      }
      return true;
    }

    method ReadTrieds(trieds: seq<Record>)
      requires Shaped(vvTried, TRIED_BUCKETS)
      modifies this
      ensures S() == TriedsLoaded(hasher, old(S()), trieds) && triedCollisions == old(triedCollisions)
    {
      hide TriedLoaded, Shaped;
      ghost var s0 := S();
      var nLost := 0;
      for n := 0 to |trieds|
        invariant S().(nTried := nTried - nLost) == TriedsLoaded(hasher, s0, trieds[..n])
        invariant Shaped(vvTried, TRIED_BUCKETS) && triedCollisions == old(triedCollisions)
      {
        assert trieds[..n + 1][..n] == trieds[..n];
        LateSubtraction(hasher, S(), nLost, trieds[n]);
        var lost := ReadTried(trieds[n]);
        if lost {
          nLost := nLost + 1;
        }
      }
      assert trieds[..|trieds|] == trieds;
      nTried := nTried - nLost;
    }

    method PlaceEntry(e: Entry, restore: bool)
      requires Shaped(vvNew, NEW_BUCKETS) && e.id in mapInfo && (restore ==> e.bucket < NEW_BUCKETS)
      modifies this
      ensures S() == CellLoaded(hasher, old(S()), restore, e.bucket, e.id) && triedCollisions == old(triedCollisions)
    {
      var info := mapInfo[e.id];
      if !hasher.valid(info.addr) || info.refCount >= NEW_BUCKETS_PER_ADDRESS {
        return;
      }
      var bucket := e.bucket;
      if restore && vvNew[bucket][hasher.NewPos(info.addr, bucket)] == EMPTY {
        GainCell(bucket, hasher.NewPos(info.addr, bucket), e.id);
      } else {
        bucket := hasher.NewBucket(info.addr, info.source);
        var pos := hasher.NewPos(info.addr, bucket);
        if vvNew[bucket][pos] == EMPTY {
          GainCell(bucket, pos, e.id);
        }
      }
    }

    method PlaceEntries(es: seq<Entry>, restore: bool)
      requires Loadable(S(), restore, es)
      modifies this
      ensures S() == CellsLoaded(hasher, old(S()), restore, es) && triedCollisions == old(triedCollisions)
    {
      hide CellLoaded;
      ghost var s0 := S();
      for i := 0 to |es|
        invariant S() == CellsLoaded(hasher, s0, restore, es[..i]) && triedCollisions == old(triedCollisions)
      {
        assert es[..i + 1][..i] == es[..i];
        assert es[i].id in s0.infos;
        PlaceEntry(es[i], restore);
      }
      assert es[..|es|] == es;
    }

    /** Entries that found no place are removed. */
    method Prune()
      requires Loading(hasher, S())
      modifies this
      ensures Loading(hasher, S()) && Unplaced(mapInfo) == {}
      ensures Without(old(S()), S(), old(Unplaced(mapInfo)))
      ensures old(Unplaced(mapInfo) == {}) ==> S() == old(S())
      ensures triedCollisions == old(triedCollisions)
    {
      hide Loading, Deleted, Without;
      var todo := mapInfo.Keys;
      ghost var gone: set<int> := {};
      WithoutNone(S());
      while todo != {}
        invariant Loading(hasher, S()) && Unplaced(mapInfo) <= todo <= mapInfo.Keys
        invariant old(Unplaced(mapInfo) == {}) ==> S() == old(S())
        invariant gone <= old(mapInfo).Keys && Without(old(S()), S(), gone)
        invariant old(Unplaced(mapInfo)) == gone + Unplaced(mapInfo)
        invariant triedCollisions == old(triedCollisions)
        decreases todo
      {
        ghost var some := SomeElement(todo);
        var id :| id in todo;
        if !mapInfo[id].inTried && mapInfo[id].refCount == 0 {
          DeletedLoading(hasher, S(), id);
          DeletedIsWithout(hasher, old(S()), S(), gone, id);
          gone := gone + {id};
          Delete(id);
        }
        todo := todo - {id};
      }
    }

    /** Reading a file into an address manager that has just been created. Whatever the file
        holds, the outcome is a refusal or a consistent state. */
    method Unserialize(file: File, asmap: int, keyIsNull: bool) returns (ok: bool)
      requires S() == Blank() && triedCollisions == {}
      modifies this
      ensures ok ==> Valid() && TimesOk(mapInfo) && AllValid(hasher, mapInfo)
      ensures ok <==> Acceptable(file) && !keyIsNull && Sound(Loaded(hasher, file, asmap))
      ensures ok <==> Acceptable(file) && !keyIsNull && AddrCheck.Consistent(hasher, S())
      ensures Acceptable(file) ==>
                var loaded := Loaded(hasher, file, asmap);
                Without(loaded, S(), Unplaced(loaded.infos))
      ensures Acceptable(file) && Unplaced(Loaded(hasher, file, asmap).infos) == {} ==>
                S() == Loaded(hasher, file, asmap)
    {
      hide Loading, BookOk, TimesOk, AddrCheck.Consistent, CellsLoaded, RecordsLoaded, Entries, Without, AllValid,
           Sound;
      if file.compat < INCOMPATIBILITY_BASE || file.compat - INCOMPATIBILITY_BASE > FILE_FORMAT {
        return false;
      }
      if |file.news| > NEW_BUCKETS * BUCKET_SIZE || |file.trieds| > TRIED_BUCKETS * BUCKET_SIZE {
        return false;
      }
      ReadRecords(file);
      var entries := ReadBuckets(file.buckets, |file.news|);
      var restore := Restorable(file, asmap);
      RecordsLoadable(hasher, file, restore);
      LoadedLoading(hasher, file, asmap);
      PlaceEntries(entries, restore);
      Prune();
      LoadedValid(hasher, file, asmap, S());
      SoundIsConsistent(hasher, file, asmap, S());
      LoadedShaped(hasher, S());
      var err := AddrCheck.CheckAddrman(hasher, S(), keyIsNull);
      if err != 0 {
        return false;
      }
      NoCollisions(hasher, S());
      return true;
    }

    method ReadRecords(file: File)
      requires S() == Blank()
      modifies this
      ensures S() == RecordsLoaded(hasher, file) && triedCollisions == old(triedCollisions)
    {
      hide NewsLoaded, TriedsLoaded;
      nNew := |file.news|;
      nTried := |file.trieds|;
      NewsLoadedTables(hasher, S(), file.news);
      ReadNews(file.news);
      ReadTrieds(file.trieds);
    }

    static method ReadBuckets(buckets: seq<seq<int>>, nNew: nat) returns (entries: seq<Entry>)
      ensures entries == Entries(buckets, nNew)
    {
      entries := [];
      for b := 0 to |buckets|
        invariant entries == Entries(buckets[..b], nNew)
      {
        var row := buckets[b];
        for n := 0 to |row|
          invariant entries == Entries(buckets[..b], nNew) + RowEntries(b, row[..n], nNew)
        {
          assert row[..n + 1][..n] == row[..n];
          if 0 <= row[n] < nNew {
            entries := entries + [Entry(b, row[n])];
          }
        }
        assert row[..|row|] == row;
        assert buckets[..b + 1][..b] == buckets[..b];
      }
      assert buckets[..|buckets|] == buckets;
    }

    /** Writing: `order` is the order in which the map of entries happens to be iterated. */
    method Serialize(order: seq<int>, asmap: int) returns (file: File)
      requires Valid() && Lists(mapInfo, order) && forall i :: 0 <= i < |order| ==> order[i] in mapInfo
      ensures file == Saved(S(), order, asmap)
    {
      hide BookOk, Picked, SavedRow, SavedRows, Records, Colliding;
      var news, ids := WriteNews(order);
      var trieds := WriteTrieds(order);
      SavedLists(S(), order, asmap);
      SavedNumbers(hasher, S(), order);
      var rows := [];
      for bucket := 0 to NEW_BUCKETS
        invariant rows == SavedRows(vvNew[..bucket], Picked(mapInfo, order, false))
      {
        var row := WriteRow(vvNew[bucket], ids, Picked(mapInfo, order, false));
        SavedRowsMore(vvNew, bucket, Picked(mapInfo, order, false));
        rows := rows + [row];
      }
      assert vvNew[..NEW_BUCKETS] == vvNew;
      file := File(FILE_FORMAT, INCOMPATIBILITY_BASE + FILE_FORMAT, news, trieds, rows, asmap);
    }

    method WriteNews(order: seq<int>) returns (news: seq<Record>, mapUnkIds: map<int, int>)
      requires Valid() && Lists(mapInfo, order) && forall i :: 0 <= i < |order| ==> order[i] in mapInfo
      ensures news == PickedRecords(mapInfo, order, false)
      ensures Numbered(mapUnkIds, Picked(mapInfo, order, false))
    {
      hide BookOk, Colliding, Picked, Numbered, PickedRecords;
      PickingStarts(mapInfo, false);
      news, mapUnkIds := [], map[];
      var nIds := 0;
      for i := 0 to |order|
        invariant news == PickedRecords(mapInfo, order[..i], false) && nIds == |Picked(mapInfo, order[..i], false)|
        invariant Numbered(mapUnkIds, Picked(mapInfo, order[..i], false))
      {
        PickingOn(hasher, S(), order, i, false, mapUnkIds);
        var id := order[i];
        mapUnkIds := mapUnkIds[id := nIds];
        if mapInfo[id].refCount != 0 {
          assert nIds != nNew;
          news := news + [RecordOf(mapInfo[id])];
          nIds := nIds + 1;
        }
      }
      assert order[..|order|] == order;
    }

    method WriteTrieds(order: seq<int>) returns (trieds: seq<Record>)
      requires Valid() && Lists(mapInfo, order) && forall i :: 0 <= i < |order| ==> order[i] in mapInfo
      ensures trieds == PickedRecords(mapInfo, order, true)
    {
      hide BookOk, Colliding, Picked, Numbered, PickedRecords;
      PickingStarts(mapInfo, true);
      trieds := [];
      var nIds := 0;
      for i := 0 to |order|
        invariant trieds == PickedRecords(mapInfo, order[..i], true) && nIds == |Picked(mapInfo, order[..i], true)|
      {
        PickingOn(hasher, S(), order, i, true, map[]);
        var id := order[i];
        if mapInfo[id].inTried {
          assert nIds != nTried;
          trieds := trieds + [RecordOf(mapInfo[id])];
          nIds := nIds + 1;
        }
      }
      assert order[..|order|] == order;
    }

    static method WriteRow(row: seq<int>, mapUnkIds: map<int, int>, ghost ids: seq<int>) returns (saved: seq<int>)
      requires Numbered(mapUnkIds, ids) && forall i :: 0 <= i < |row| && row[i] != EMPTY ==> row[i] in ids
      ensures saved == SavedRow(row, ids)
    {
      saved := [];
      for i := 0 to |row|
        invariant saved == SavedRow(row[..i], ids)
      {
        assert row[..i + 1][..i] == row[..i];
        var id := row[i];
        if id != EMPTY {
          assert id in ids;
          saved := saved + [mapUnkIds[id]];
        }
      }
      assert row[..|row|] == row;
    }
  }
}
