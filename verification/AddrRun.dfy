/**
 Whole runs of the address manager: any sequence of public operations, each under the source's
 own consistency check, and what survives being written to disk and read back.
 */
module AddrRun {
  import opened Common
  import opened AddrModel
  import opened AddrBook
  import opened AddrMan
  import opened AddrFile
  import AddrCheck
  import AddrRoundTrip

  datatype Operation =
    | Adding(addrs: seq<Address>, source: int, penalty: int, clock: int -> int, lucky: int -> bool)
    | Succeeding(addr: Service, time: int)
    | Attempting(addr: Service, countFailure: bool, time: int)
    | Connecting(addr: Service, time: int)
    | Advertising(addr: Service, services: set<int>)
    | Resolving(clock: int -> int)
    | SelectingCollision
    | Sampling(maxAddresses: nat, maxPct: nat, filter: Filter, rand: nat -> nat)
  {
    /** Connections do not succeed before or at the epoch, nor are they attempted before it. */
    predicate Timely() {
      match this
      case Succeeding(_, time) => time > 0
      case Attempting(_, _, time) => time >= 0
      case _ => true
    }

    /** The operations that leave consistent times consistent: a connection to a known address
        may be attempted at the epoch, and may even succeed then if the address stays new. */
    predicate Harmless(h: Hasher, s: Book)
      requires Shaped(s.news, NEW_BUCKETS) && Shaped(s.tried, TRIED_BUCKETS)
    {
      match this
      case Succeeding(addr, time) =>
        var pl := BookPlaces(h, s);
        addr !in pl || time > 0 || (time == 0 && pl[addr].place.New? && TriedCell(h, s.tried, addr) != EMPTY)
      case Attempting(addr, _, time) => addr !in s.addrs || time >= 0
      case _ => true
    }
  }

  method Perform(m: AddrManImpl, op: Operation)
    requires m.Valid()
    modifies m
    ensures m.Valid() && Onward(old(m.S()), m.S()) && Joined(m.hasher, old(m.View()), m.View())
    ensures old(TimesOk(m.mapInfo)) ==> (TimesOk(m.mapInfo) <==> op.Harmless(m.hasher, old(m.S())))
  {
    hide BookOk, Colliding, TimesOk, BookPlaces, Onward, Joined, MovedToTried, Evictee, Selectable, Occupies,
         AddedOne, ResolvedOne, Attempted;
    ghost var s0, view0 := m.S(), m.View();
    StandingStill(m.hasher, s0);
    NobodyJoined(m.hasher, view0);
    match op {
      case Adding(addrs, source, penalty, clock, lucky) =>
        var added;
        ghost var states, took;
        added, states, took := m.Add(addrs, source, penalty, clock, lucky);
      case Succeeding(addr, time) =>
        var moved;
        ghost var evicted;
        moved, evicted := m.Good(addr, true, time);
        if moved {
          MovedJoined(m.hasher, view0, addr, evicted);
        }
      case Attempting(addr, countFailure, time) =>
        m.Attempt(addr, countFailure, time);
      case Connecting(addr, time) =>
        m.Connected(addr, time);
      case Advertising(addr, services) =>
        m.SetServices(addr, services);
      case Resolving(clock) =>
        ghost var order, states, erased := m.ResolveCollisions(clock);
      case SelectingCollision =>
        var r := m.SelectTriedCollision();
      case Sampling(maxAddresses, maxPct, filter, rand) =>
        var r := m.GetAddr(maxAddresses, maxPct, filter, rand);
        RenumberedOnward(m.hasher, s0, m.mapInfo, m.vRandom);
        RenumberedTimes(s0.infos, m.mapInfo);
    }
  }

  lemma RenumberedTimes(infos: Infos, infos': Infos)
    requires SameButPositions(infos, infos')
    ensures TimesOk(infos) ==> TimesOk(infos')
  {
    forall id | id in infos' ensures id in infos && SameButPosition(infos[id], infos'[id]) {
    }
  }

  /** In a state of the invariant the check only depends on the times. */
  method Check(m: AddrManImpl) returns (err: int)
    requires m.Valid()
    ensures err == 0 <==> TimesOk(m.mapInfo)
  {
    hide BookOk, Colliding, TimesOk, AddrCheck.Consistent, AddrCheck.Unchecked;
    AddrCheck.InvariantAndCheck(m.hasher, m.S());
    AddrCheck.ConsistentTimes(m.hasher, m.S());
    err := AddrCheck.CheckAddrman(m.hasher, m.S(), false);
  }

  /** A run from a consistent state, with the check after every operation; `states` are the states
      between the operations. The check fails after an operation on consistent times exactly if
      the operation is not harmless. So it never fails in a timely run. Ids are never reused, an
      occupied tried slot is never vacated, and nobody becomes known who could not be reached. */
  method Run(m: AddrManImpl, ops: seq<Operation>) returns (errs: seq<int>, ghost states: seq<Book>)
    requires m.Valid() && TimesOk(m.mapInfo)
    modifies m
    ensures m.Valid() && Onward(old(m.S()), m.S()) && Joined(m.hasher, old(m.View()), m.View())
    ensures |errs| == |ops| && |states| == |ops| + 1 && states[0] == old(m.S()) && states[|ops|] == m.S()
    ensures forall i :: 0 <= i < |ops| ==> StepChecked(m.hasher, states[i], ops[i], errs[i], states[i + 1])
    ensures (forall i :: 0 <= i < |ops| ==> ops[i].Timely()) ==>
              TimesOk(m.mapInfo) && forall i :: 0 <= i < |errs| ==> errs[i] == 0
  {
    hide BookOk, Colliding, TimesOk, BookPlaces, Onward, Joined;
    ghost var s0 := m.S();
    StandingStill(m.hasher, s0);
    NobodyJoined(m.hasher, m.View());
    errs, states := [], [s0];
    for i := 0 to |ops|
      invariant m.Valid() && Onward(s0, m.S()) && Joined(m.hasher, old(m.View()), m.View())
      invariant |errs| == i && |states| == i + 1 && states[0] == s0 && states[i] == m.S()
      invariant forall k :: 0 <= k < i ==> StepChecked(m.hasher, states[k], ops[k], errs[k], states[k + 1])
      invariant (forall k :: 0 <= k < i ==> ops[k].Timely()) ==>
                  TimesOk(m.mapInfo) && forall k :: 0 <= k < i ==> errs[k] == 0
    {
      ghost var s1, view1 := m.S(), m.View();
      Perform(m, ops[i]);
      OnwardTransitively(s0, s1, m.S());
      JoinedTransitively(m.hasher, old(m.View()), view1, m.View());
      var err := Check(m);
      errs, states := errs + [err], states + [m.S()];
      assert StepChecked(m.hasher, s1, ops[i], err, m.S());
    }
  }

  ghost predicate StepChecked(h: Hasher, s: Book, op: Operation, err: int, s': Book) {
    && Shaped(s.news, NEW_BUCKETS) && Shaped(s.tried, TRIED_BUCKETS)
    && (err == 0 <==> TimesOk(s'.infos))
    && (TimesOk(s.infos) ==> (err == 0 <==> op.Harmless(h, s)))
  }

  /** The check fails for a connection that succeeds at the epoch: the address becomes tried, but
      its time reads as if it had never been reached. */
  method SuccessAtTheEpoch(h: Hasher, addr: Address, source: int, now: int) returns (err: int)
    requires h.Routable(addr.service)
    ensures err != 0
  {
    hide BookOk, Colliding, TimesOk, BookPlaces, Onward, Joined, Evictee, MovedToTried, Cleared, Announced, StatsKept,
         Newcomer, Refreshed, SucceededAt;
    var m := new AddrManImpl(h);
    var inserted := m.AddSingle(addr, source, 0, now, true);
    assert addr.service in m.View() && m.View()[addr.service].place.New?;
    ghost var moved, evicted := m.Good(addr.service, true, 0);
    err := Check(m);
  }

  /** Who is known in a later state is known in an earlier one or valid, so what was valid stays so. */
  lemma JoinedValid(h: Hasher, s: Book, s': Book)
    requires BookOk(h, s, {}, {}) && BookOk(h, s', {}, {}) && Shaped(s.news, NEW_BUCKETS)
    requires Shaped(s'.news, NEW_BUCKETS)
    requires Joined(h, BookPlaces(h, s), BookPlaces(h, s')) && AllValid(h, s.infos)
    ensures AllValid(h, s'.infos)
  {
    hide TriedOk, NewOk, Shuffled, Counted;
    forall id | id in s'.infos ensures h.valid(s'.infos[id].addr) {
      EntryAndPlace(h, s', id);
    }
  }

  /** An address manager that only knows valid addresses, written and read back under the same
      key and asmap, is accepted and has lost nothing. */
  method SaveAndLoad(m: AddrManImpl, order: seq<int>, asmap: int) returns (ok: bool, m': AddrManImpl)
    requires m.Valid() && TimesOk(m.mapInfo) && AllValid(m.hasher, m.mapInfo) && Lists(m.mapInfo, order)
    ensures fresh(m') && ok && m'.Valid() && TimesOk(m'.mapInfo) && AllValid(m'.hasher, m'.mapInfo)
    ensures m'.hasher == m.hasher
    ensures m'.View() == m.View() && AddrRoundTrip.SameRecords(m.S(), m'.S())
  {
    hide BookOk, Colliding, TimesOk, BookPlaces, Saved, Loaded, AddrCheck.Consistent, AddrRoundTrip.SameRecords,
         AllValid,
         Without, Sound;
    AddrRoundTrip.SavedComesBack(m.hasher, m.S(), order, asmap);
    var file := m.Serialize(order, asmap);
    m' := new AddrManImpl(m.hasher);
    ok := m'.Unserialize(file, asmap, false);
  }

  /** A whole session: any file, any timely run from it if it loads, and the way back to disk. It
      loads exactly if it is sound; `s` is what it leads to, the file without the entries that
      found no place. Then the check fails after no operation, and what the run ended with is
      there again at the next start. */
  method Session(h: Hasher, file: File, asmap: int, ops: seq<Operation>)
    returns (loaded: bool, errs: seq<int>, m: AddrManImpl, m': AddrManImpl, ghost s: Book, ghost states: seq<Book>)
    requires forall i :: 0 <= i < |ops| ==> ops[i].Timely()
    ensures loaded <==> Acceptable(file) && Sound(Loaded(h, file, asmap))
    ensures Acceptable(file) ==> Without(Loaded(h, file, asmap), s, Unplaced(Loaded(h, file, asmap).infos))
    ensures loaded ==> |errs| == |ops| && |states| == |ops| + 1 && states[0] == s && states[|ops|] == m.S()
    ensures loaded ==> forall i :: 0 <= i < |ops| ==>
              errs[i] == 0 && StepChecked(h, states[i], ops[i], errs[i], states[i + 1])
    ensures loaded ==> m.Valid() && m.hasher == h && TimesOk(m.mapInfo) && AllValid(h, m.mapInfo) && Onward(s, m.S())
    ensures loaded ==> m'.Valid() && m'.hasher == h && TimesOk(m'.mapInfo) && AllValid(h, m'.mapInfo)
    ensures loaded ==> m'.View() == m.View() && AddrRoundTrip.SameRecords(m.S(), m'.S())
  {
    hide BookOk, Colliding, TimesOk, BookPlaces, Loaded, AddrCheck.Consistent, AddrRoundTrip.SameRecords, AllValid,
         Without, Onward, Joined, StepChecked, Lists, Sound;
    m := new AddrManImpl(h);
    m', errs, states := m, [], [];
    loaded := m.Unserialize(file, asmap, false);
    s := m.S();
    if !loaded {
      return;
    }
    errs, states := Run(m, ops);
    JoinedValid(h, s, m.S());
    RandomIsAListing(h, m.S());
    var ok;
    ok, m' := SaveAndLoad(m, m.vRandom, asmap);
  }

  lemma RandomIsAListing(h: Hasher, s: Book)
    requires BookOk(h, s, {}, {})
    ensures Lists(s.infos, s.random)
  {
  }
}
