/**
 The value level of the UTXO cache: coins, cache entries with their DIRTY and FRESH
 flags, and what one layer of cache means on top of the view below it.
 */
module CoinsModel {
  import opened Common

  datatype OutPoint = OutPoint(hash: int, n: nat)

  /** A script is carried with the two facts the cache asks about it: the heap memory it
      holds and whether it can never be spent. */
  datatype Script = Script(code: seq<int>, memory: nat, unspendable: bool)

  const EMPTY_SCRIPT := Script([], 0, false)

  datatype Coin = Coin(value: int, script: Script, coinBase: bool, height: nat) {
    predicate IsSpent() { value == -1 }

    function Usage(): nat { script.memory }
  }

  const EMPTY_COIN := Coin(-1, EMPTY_SCRIPT, false, 0)

  datatype Entry = Entry(coin: Coin, isDirty: bool, isFresh: bool)

  type Cache = map<OutPoint, Entry>
  type Utxo = map<OutPoint, Coin>

  /** The unspent coins seen through a cache laid over the view `below`. */
  function Overlay(c: Cache, below: Utxo): Utxo {
    map o | o in c.Keys + below.Keys && (o in c ==> !c[o].coin.IsSpent()) ::
      if o in c then c[o].coin else below[o]
  }

  ghost predicate AllUnspent(m: Utxo) {
    forall o :: o in m ==> !m[o].IsSpent()
  }

  /** The five flag combinations that coins.h allows. */
  predicate LegalFlags(e: Entry) {
    if e.coin.IsSpent() then e.isDirty != e.isFresh else e.isFresh ==> e.isDirty
  }

  ghost predicate EntryOk(e: Entry, o: OutPoint, below: Utxo) {
    && LegalFlags(e)
    && (e.coin.IsSpent() ==> e.coin == EMPTY_COIN)
    && (e.isFresh ==> o !in below)
    && (!e.isDirty && !e.coin.IsSpent() ==> o in below && below[o] == e.coin)
  }

  /** The flags of a cache tell the truth about the view below it. */
  ghost predicate LayerOk(c: Cache, below: Utxo) {
    forall o :: o in c ==> EntryOk(c[o], o, below)
  }

  /** Writing a child's entry over a parent's entry, when it is not misapplied. */
  function MergeEntry(parent: Option<Entry>, child: Entry): Option<Entry> {
    if !child.isDirty then parent
    else match parent
      case None =>
        if child.isFresh && child.coin.IsSpent() then None
        else Some(Entry(child.coin, true, child.isFresh))
      case Some(us) =>
        if us.isFresh && child.coin.IsSpent() then None
        else Some(Entry(child.coin, true, us.isFresh))
  }

  function Lookup(c: Cache, o: OutPoint): Option<Entry> {
    if o in c then Some(c[o]) else None
  }

  /** The cache that results when every entry of `child` under a key of `done` has been
      written into `parent`. */
  function Merged(child: Cache, parent: Cache, done: set<OutPoint>): Cache {
    map o | o in parent.Keys + (done * child.Keys) &&
            (o in done && o in child ==> MergeEntry(Lookup(parent, o), child[o]).Some?) ::
      if o in done && o in child then MergeEntry(Lookup(parent, o), child[o]).value else parent[o]
  }

  /** The cache with one key set to an entry, or cleared. */
  function With(c: Cache, o: OutPoint, e: Option<Entry>): Cache {
    match e
    case None => c - {o}
    case Some(e) => c[o := e]
  }

  /** Writing one more key changes the parent at that key only. */
  lemma MergedStep(child: Cache, parent: Cache, done: set<OutPoint>, o: OutPoint)
    requires o in child && o !in done
    ensures Lookup(Merged(child, parent, done), o) == Lookup(parent, o)
    ensures !child[o].isDirty ==> Merged(child, parent, done + {o}) == Merged(child, parent, done)
    ensures Merged(child, parent, done + {o}) ==
            With(Merged(child, parent, done), o, MergeEntry(Lookup(parent, o), child[o]))
  {
  }

  /** Some FRESH entry of the child meets an unspent entry of the parent. */
  predicate MisappliedAt(child: Cache, parent: Cache, o: OutPoint)
    requires o in child
  {
    child[o].isDirty && child[o].isFresh && o in parent && !parent[o].coin.IsSpent()
  }

  ghost predicate Misapplied(child: Cache, parent: Cache) {
    exists o :: o in child && MisappliedAt(child, parent, o)
  }

  /** A child whose flags are right for its parent is never refused, leaves the parent's
      flags right for the grandparent, and the parent then shows what the child showed. */
  lemma MergeKeepsTheView(child: Cache, parent: Cache, below: Utxo)
    requires LayerOk(parent, below)
    requires LayerOk(child, Overlay(parent, below))
    ensures !Misapplied(child, parent)
    ensures LayerOk(Merged(child, parent, child.Keys), below)
    ensures Overlay(Merged(child, parent, child.Keys), below) == Overlay(child, Overlay(parent, below))
  {
    var m := Merged(child, parent, child.Keys);
    forall o | o in child ensures !MisappliedAt(child, parent, o) {
      assert EntryOk(child[o], o, Overlay(parent, below));
    }
    forall o | o in m ensures EntryOk(m[o], o, below) {
      if o in child {
        assert EntryOk(child[o], o, Overlay(parent, below));
      }
      if o in parent {
        assert EntryOk(parent[o], o, below);
      }
    }
    var left, right := Overlay(m, below), Overlay(child, Overlay(parent, below));
    forall o ensures (o in left <==> o in right) && (o in left ==> left[o] == right[o]) {
      MergeKeepsOneCoin(child, parent, below, o);
    }
  }

  lemma MergeKeepsOneCoin(child: Cache, parent: Cache, below: Utxo, o: OutPoint)
    requires LayerOk(parent, below)
    requires LayerOk(child, Overlay(parent, below))
    ensures var left := Overlay(Merged(child, parent, child.Keys), below);
            var right := Overlay(child, Overlay(parent, below));
            (o in left <==> o in right) && (o in left ==> left[o] == right[o])
  {
    if o in child {
      assert EntryOk(child[o], o, Overlay(parent, below));
    }
    if o in parent {
      assert EntryOk(parent[o], o, below);
    }
  }

  /** What the database holds after a batch: dirty spent coins erased, dirty unspent ones written. */
  function Persisted(child: Cache, db: Utxo, done: set<OutPoint>): Utxo {
    map o | o in db.Keys + (done * child.Keys) &&
            (o in done && o in child && child[o].isDirty ==> !child[o].coin.IsSpent()) &&
            (o !in db ==> child[o].isDirty) ::
      if o in done && o in child && child[o].isDirty then child[o].coin else db[o]
  }

  lemma PersistedStep(child: Cache, db: Utxo, done: set<OutPoint>, o: OutPoint)
    requires o in child && o !in done
    ensures Persisted(child, db, done + {o}) ==
            if !child[o].isDirty then Persisted(child, db, done)
            else if child[o].coin.IsSpent() then Persisted(child, db, done) - {o}
            else Persisted(child, db, done)[o := child[o].coin]
  {
  }

  lemma PersistKeepsTheView(child: Cache, db: Utxo)
    requires LayerOk(child, db) && AllUnspent(db)
    ensures Persisted(child, db, child.Keys) == Overlay(child, db)
    ensures AllUnspent(Overlay(child, db))
  {
    var left, right := Persisted(child, db, child.Keys), Overlay(child, db);
    forall o ensures (o in left <==> o in right) && (o in left ==> left[o] == right[o]) {
      if o in child {
        assert EntryOk(child[o], o, db);
      }
    }
  }

  /** The cache left behind by Sync: spent entries gone, flags cleared. */
  function Cleaned(c: Cache): Cache {
    map o | o in c && !c[o].coin.IsSpent() :: Entry(c[o].coin, false, false)
  }

  function CleanEntry(e: Entry): Option<Entry> {
    if e.coin.IsSpent() then None else Some(Entry(e.coin, false, false))
  }

  /** The cache part-way through Sync's clean-up. */
  function CleanedOn(c: Cache, done: set<OutPoint>): Cache {
    map o | o in c && (o in done ==> !c[o].coin.IsSpent()) ::
      if o in done then Entry(c[o].coin, false, false) else c[o]
  }

  lemma CleanedStep(c: Cache, done: set<OutPoint>, o: OutPoint)
    requires o in c && o !in done
    ensures o in CleanedOn(c, done) && CleanedOn(c, done)[o] == c[o]
    ensures CleanedOn(c, done + {o}) == With(CleanedOn(c, done), o, CleanEntry(c[o]))
  {
  }

  lemma CleanedIsRight(c: Cache, below: Utxo)
    requires LayerOk(c, below)
    ensures LayerOk(Cleaned(c), Overlay(c, below))
    ensures Overlay(Cleaned(c), Overlay(c, below)) == Overlay(c, below)
  {
  }

  /** The entry that AddCoin leaves for a coin it accepts. */
  function AddedEntry(prior: Option<Entry>, coin: Coin, overwrite: bool): Entry {
    match prior
    case None => Entry(coin, true, !overwrite)
    case Some(e) => Entry(coin, true, e.isFresh || (!overwrite && !e.isDirty))
  }

  /** AddCoin leaves the flags of its layer right exactly when the caller either allowed an
      overwrite, or the layer already holds an entry for the coin, or no unspent coin of that
      name is visible below. */
  lemma AddKeepsLayerIff(c: Cache, below: Utxo, o: OutPoint, coin: Coin, overwrite: bool)
    requires LayerOk(c, below)
    requires !coin.IsSpent() && (overwrite || o !in c || c[o].coin.IsSpent())
    ensures LayerOk(c[o := AddedEntry(Lookup(c, o), coin, overwrite)], below) <==>
            (overwrite || o in c || o !in below)
    ensures Overlay(c[o := AddedEntry(Lookup(c, o), coin, overwrite)], below) == Overlay(c, below)[o := coin]
  {
    var c' := c[o := AddedEntry(Lookup(c, o), coin, overwrite)];
    if o in c {
      assert EntryOk(c[o], o, below);
    }
    forall p | p in c && p != o ensures EntryOk(c'[p], p, below) {
      assert EntryOk(c[p], p, below);
    }
    assert LayerOk(c', below) <==> EntryOk(c'[o], o, below);
    var left, right := Overlay(c', below), Overlay(c, below)[o := coin];
    assert left.Keys == right.Keys;
  }

  /** The layer after SpendCoin: a FRESH entry is dropped, any other is kept as a dirty spent coin. */
  function Spent(c: Cache, o: OutPoint): Cache
    requires o in c
  {
    if c[o].isFresh then c - {o} else c[o := Entry(EMPTY_COIN, true, false)]
  }

  /** An entry hides what is below it: its coin is the one seen, unless it is spent. */
  lemma EntryIsSeen(c: Cache, below: Utxo, o: OutPoint)
    requires LayerOk(c, below) && o in c
    ensures o in Overlay(c, below) <==> !c[o].coin.IsSpent()
    ensures c[o].coin == if o in Overlay(c, below) then Overlay(c, below)[o] else EMPTY_COIN
  {
    assert EntryOk(c[o], o, below);
  }

  lemma SpendRemovesTheCoin(c: Cache, below: Utxo, o: OutPoint)
    requires LayerOk(c, below) && o in c
    ensures LayerOk(Spent(c, o), below)
    ensures Overlay(Spent(c, o), below) == Overlay(c, below) - {o}
  {
    var c' := Spent(c, o);
    assert EntryOk(c[o], o, below);
    forall p | p in c' && p != o ensures EntryOk(c'[p], p, below) {
      assert EntryOk(c[p], p, below);
    }
  }

  /** Caching what is visible below, or forgetting a clean entry, changes nothing to be seen. */
  lemma FetchKeepsTheView(c: Cache, below: Utxo, o: OutPoint)
    requires LayerOk(c, below) && o !in c && o in below && !below[o].IsSpent()
    ensures LayerOk(c[o := Entry(below[o], false, false)], below)
    ensures Overlay(c[o := Entry(below[o], false, false)], below) == Overlay(c, below)
  {
  }

  lemma UncacheKeepsTheView(c: Cache, below: Utxo, o: OutPoint)
    requires LayerOk(c, below) && o in c && !c[o].isDirty && !c[o].isFresh
    ensures LayerOk(c - {o}, below)
    ensures Overlay(c - {o}, below) == Overlay(c, below)
  {
    assert EntryOk(c[o], o, below);
  }

  /** A misapplied FRESH flag loses a spend: in any layer, a coin that is added over one that is
      visible below and then spent leaves the view as if nothing had happened, with the old coin. */
  lemma MisappliedFreshResurrects(c: Cache, below: Utxo, o: OutPoint, coin: Coin)
    requires LayerOk(c, below) && o !in c && o in below && !coin.IsSpent()
    ensures var added := c[o := AddedEntry(None, coin, false)];
            && o in Overlay(added, below) && Overlay(added, below)[o] == coin
            && Overlay(Spent(added, o), below) == Overlay(c, below)
            && o in Overlay(c, below) && Overlay(c, below)[o] == below[o]
  {
    assert c[o := AddedEntry(None, coin, false)] - {o} == c;
  }

  /** Total heap memory of the cached coins. */
  ghost function TotalUsage(c: Cache): nat {
    if c == map[] then 0 else
      var o :| o in c;
      c[o].coin.Usage() + TotalUsage(c - {o})
  }

  lemma {:induction false} TotalUsageWithout(c: Cache, o: OutPoint)
    requires o in c
    ensures TotalUsage(c) == c[o].coin.Usage() + TotalUsage(c - {o})
    decreases |c|
  {
    var p :| p in c && TotalUsage(c) == c[p].coin.Usage() + TotalUsage(c - {p});
    if p != o {
      TotalUsageWithout(c - {p}, o);
      TotalUsageWithout(c - {o}, p);
      assert c - {p} - {o} == c - {o} - {p};
    }
  }

  function EntryUsage(e: Option<Entry>): nat {
    match e
    case None => 0
    case Some(e) => e.coin.Usage()
  }

  /** The account after one entry is set or cleared. */
  lemma TotalUsageWith(c: Cache, o: OutPoint, e: Option<Entry>)
    ensures TotalUsage(With(c, o, e)) == TotalUsage(c) + EntryUsage(e) - EntryUsage(Lookup(c, o))
  {
    var c' := With(c, o, e);
    if o in c {
      TotalUsageWithout(c, o);
    } else {
      assert c - {o} == c;
    }
    if o in c' {
      TotalUsageWithout(c', o);
    }
    assert c' - {o} == c - {o};
  }

  lemma SpentUsage(c: Cache, o: OutPoint)
    requires o in c
    ensures TotalUsage(Spent(c, o)) == TotalUsage(c) - c[o].coin.Usage()
  {
    TotalUsageWith(c, o, None);
    TotalUsageWith(c, o, Some(Entry(EMPTY_COIN, true, false)));
  }

  /** A transaction: its id, whether it is a coinbase, and its outputs (amount, script). */
  datatype Tx = Tx(txid: int, coinBase: bool, outputs: seq<(int, Script)>)

  function OutputCoin(tx: Tx, height: nat, i: nat): Coin
    requires i < |tx.outputs|
  {
    Coin(tx.outputs[i].0, tx.outputs[i].1, tx.coinBase, height)
  }

  /** The map `m` with the coins of the first n outputs; unspendable outputs make none. */
  function WithOutputs(m: Utxo, tx: Tx, height: nat, n: nat): Utxo
    requires n <= |tx.outputs|
  {
    if n == 0 then m else
      var sofar := WithOutputs(m, tx, height, n - 1);
      if tx.outputs[n - 1].1.unspendable then sofar
      else sofar[OutPoint(tx.txid, n - 1) := OutputCoin(tx, height, n - 1)]
  }

  /** Each output's own coin, and nothing else, is changed. */
  lemma {:induction false} WithOutputsAt(m: Utxo, tx: Tx, height: nat, n: nat, o: OutPoint)
    requires n <= |tx.outputs|
    ensures var m' := WithOutputs(m, tx, height, n);
            if o.hash == tx.txid && o.n < n && !tx.outputs[o.n].1.unspendable
            then o in m' && m'[o] == OutputCoin(tx, height, o.n)
            else (o in m' <==> o in m) && (o in m ==> m'[o] == m[o])
  {
    if n > 0 {
      WithOutputsAt(m, tx, height, n - 1, o);
    }
  }

  /** The calls a user of the top cache makes, and what a plain UTXO map does with them. */
  datatype Call =
    | Get(o: OutPoint) | Have(o: OutPoint) | Access(o: OutPoint)
    | Add(o: OutPoint, coin: Coin, overwrite: bool) | Spend(o: OutPoint)
    | Uncache(o: OutPoint) | Sync | Flush

  datatype Answer = Done | Missing | Present | Found(coin: Coin)

  /** The caller adds only unspent coins, and only over an absent one unless it says otherwise. */
  predicate Allowed(m: Utxo, call: Call) {
    call.Add? ==> !call.coin.IsSpent() && (call.overwrite || call.o !in m)
  }

  function Reply(m: Utxo, call: Call): Answer {
    match call
    case Get(o) => if o in m then Found(m[o]) else Missing
    case Have(o) => if o in m then Present else Missing
    case Access(o) => Found(if o in m then m[o] else EMPTY_COIN)
    case Spend(o) => Found(if o in m then m[o] else EMPTY_COIN)
    case Add(_, _, _) => Done
    case Uncache(_) => Done
    case Sync => Done
    case Flush => Done
  }

  function Effect(m: Utxo, call: Call): Utxo {
    match call
    case Add(o, coin, _) => if coin.script.unspendable then m else m[o := coin]
    case Spend(o) => m - {o}
    case _ => m
  }

  predicate Respects(m: Utxo, calls: seq<Call>)
    decreases |calls|
  {
    calls != [] ==> Allowed(m, calls[0]) && Respects(Effect(m, calls[0]), calls[1..])
  }

  function Answers(m: Utxo, calls: seq<Call>): seq<Answer>
    decreases |calls|
  {
    if calls == [] then [] else [Reply(m, calls[0])] + Answers(Effect(m, calls[0]), calls[1..])
  }

  function After(m: Utxo, calls: seq<Call>): Utxo
    decreases |calls|
  {
    if calls == [] then m else After(Effect(m, calls[0]), calls[1..])
  }
}
