/**
 CCoinsViewCache: a write-back cache of coins over a base view, which is either another
 cache or the coin database. Caches stack to any depth; the invariant relates every layer
 to the view below it, and `View` is the single UTXO map the whole stack stands for.
 */
module CoinsCache {
  import opened Common
  import opened CoinsModel

  /** The database at the bottom of a stack. */
  class CoinsDB {
    var coins: Utxo

    constructor (coins: Utxo)
      ensures this.coins == coins
    {
      this.coins := coins;
    }

    method BatchWrite(mapCoins: Cache, erase: bool) returns (rest: Cache)
      modifies this
      ensures coins == Persisted(mapCoins, old(coins), mapCoins.Keys)
      ensures rest == if erase then map[] else mapCoins
    {
      var keys, done := mapCoins.Keys, {};
      rest := mapCoins;
      while keys != {}
        invariant done !! keys && done + keys == mapCoins.Keys
        invariant coins == Persisted(mapCoins, old(coins), done)
        invariant rest == if erase then mapCoins - done else mapCoins
        decreases keys
      {
        var o :| o in keys;
        PersistedStep(mapCoins, old(coins), done, o);
        var e := mapCoins[o];
        if e.isDirty {
          if e.coin.IsSpent() {
            coins := coins - {o};
          } else {
            coins := coins[o := e.coin];
          }
        }
        if erase {
          rest := rest - {o};
        }
        keys, done := keys - {o}, done + {o};
      }
    }
  }

  class CoinsViewCache {
    const base: CoinsViewCache?
    const db: CoinsDB
    ghost const depth: nat
    ghost const Repr: set<object>
    var cacheCoins: Cache
    var cachedCoinsUsage: int

    /** The stack below this cache is a finite list of distinct caches ending in the database.
        It is fixed when the cache is built. */
    ghost predicate Shape()
      decreases depth
    {
      if base == null then
        depth == 0 && Repr == {this, db}
      else
        && depth == base.depth + 1 && base.db == db
        && Repr == {this} + base.Repr && this !in base.Repr
        && base.Shape()
    }

    lemma ShapeFacts()
      requires Shape()
      ensures this in Repr && db in Repr
      decreases depth
    {
      if base != null { base.ShapeFacts(); }
    }

    ghost function BaseView(): Utxo
      requires Shape()
      reads Repr - {this}
      decreases depth, 0
    {
      ShapeFacts();
      if base == null then db.coins else base.View()
    }

    /** The unspent coins as seen from this cache. */
    ghost function View(): Utxo
      requires Shape()
      reads this, Repr
      decreases depth, 1
    {
      Overlay(cacheCoins, BaseView())
    }

    /** The layers below are valid and keep their memory accounts. */
    ghost predicate BaseValid()
      reads Repr - {this}
      ensures BaseValid() ==> Shape()
      decreases depth, 0
    {
      && Shape()
      && if base == null then (ShapeFacts(); AllUnspent(db.coins))
         else (base.ShapeFacts(); base.Valid() && base.Accounted())
    }

    /** Every layer's flags are right for the view below it. */
    ghost predicate Valid()
      reads this, Repr
      ensures Valid() ==> BaseValid() && Shape()
      decreases depth, 1
    {
      BaseValid() && LayerOk(cacheCoins, BaseView())
    }

    ghost predicate Accounted()
      reads this
    {
      cachedCoinsUsage == TotalUsage(cacheCoins)
    }

    /** A cache directly over the database. */
    constructor OverDatabase(db: CoinsDB)
      requires AllUnspent(db.coins)
      ensures Valid() && Accounted() && fresh(this)
      ensures this.db == db && base == null && View() == db.coins
    {
      this.db := db;
      base := null;
      depth := 0;
      Repr := {this, db};
      cacheCoins, cachedCoinsUsage := map[], 0;
    }

    /** A cache over another cache. */
    constructor OverCache(below: CoinsViewCache)
      requires below.Valid() && below.Accounted()
      ensures Valid() && Accounted() && fresh(this)
      ensures base == below && db == below.db && View() == below.View()
    {
      db := below.db;
      base := below;
      depth := below.depth + 1;
      Repr := {this} + below.Repr;
      cacheCoins, cachedCoinsUsage := map[], 0;
    }

    method FetchCoin(o: OutPoint) returns (found: bool)
      requires Valid()
      modifies Repr - {db}
      ensures Valid() && (old(Accounted()) ==> Accounted())
      ensures View() == old(View()) && BaseView() == old(BaseView())
      ensures found <==> o in cacheCoins
      ensures found <==> o in old(cacheCoins) || o in old(View())
      ensures cacheCoins == if o !in old(cacheCoins) && o in BaseView()
                            then old(cacheCoins)[o := Entry(BaseView()[o], false, false)] else old(cacheCoins)
      decreases depth, 0
    {
      ShapeFacts();
      if o in cacheCoins {
        return true;
      }
      var tmp;
      found, tmp := GetFromBase(o);
      if !found {
        return;
      }
      FetchKeepsTheView(cacheCoins, BaseView(), o);
      TotalUsageWith(cacheCoins, o, Some(Entry(tmp, false, tmp.IsSpent())));
      cacheCoins := cacheCoins[o := Entry(tmp, false, tmp.IsSpent())];
      cachedCoinsUsage := cachedCoinsUsage + tmp.Usage();
    }

    /** The virtual call base->GetCoin. */
    method GetFromBase(o: OutPoint) returns (found: bool, coin: Coin)
      requires Valid()
      modifies Repr - {db, this}
      ensures Valid() && (old(Accounted()) ==> Accounted())
      ensures View() == old(View()) && BaseView() == old(BaseView())
      ensures found <==> o in BaseView()
      ensures found ==> coin == BaseView()[o] && !coin.IsSpent()
      ensures cacheCoins == old(cacheCoins) && cachedCoinsUsage == old(cachedCoinsUsage)
      decreases depth, 0, 0
    {
      ShapeFacts();
      if base == null {
        found := o in db.coins;
        coin := if found then db.coins[o] else EMPTY_COIN;
      } else {
        found, coin := base.GetCoin(o);
      }
    }

    method GetCoin(o: OutPoint) returns (found: bool, coin: Coin)
      requires Valid()
      modifies Repr - {db}
      ensures Valid() && (old(Accounted()) ==> Accounted())
      ensures View() == old(View()) && BaseView() == old(BaseView())
      ensures found <==> o in View()
      ensures found ==> coin == View()[o] && !coin.IsSpent()
      decreases depth, 1
    {
      var here := FetchCoin(o);
      ShapeFacts();
      coin := EMPTY_COIN;
      if here {
        coin := cacheCoins[o].coin;
        return !coin.IsSpent(), coin;
      }
      return false, coin;
    }

    method HaveCoin(o: OutPoint) returns (have: bool)
      requires Valid()
      modifies Repr - {db}
      ensures Valid() && (old(Accounted()) ==> Accounted())
      ensures View() == old(View()) && BaseView() == old(BaseView())
      ensures have <==> o in View()
    {
      var here := FetchCoin(o);
      ShapeFacts();
      return here && !cacheCoins[o].coin.IsSpent();
    }

    method AccessCoin(o: OutPoint) returns (coin: Coin)
      requires Valid()
      modifies Repr - {db}
      ensures Valid() && (old(Accounted()) ==> Accounted())
      ensures View() == old(View()) && BaseView() == old(BaseView())
      ensures coin == if o in View() then View()[o] else EMPTY_COIN
    {
      var here := FetchCoin(o);
      ShapeFacts();
      if !here {
        coin := EMPTY_COIN;
      } else {
        assert EntryOk(cacheCoins[o], o, BaseView());
        coin := cacheCoins[o].coin;
      }
    }

    /** Adds an unspent coin. `threw` is the logic_error for overwriting a cached unspent coin:
        it leaves the coins alone, but the account has already been reduced. */
    method AddCoin(o: OutPoint, coin: Coin, overwrite: bool) returns (threw: bool)
      requires Valid()
      requires !coin.IsSpent()
      requires overwrite || coin.script.unspendable || o in cacheCoins || o !in BaseView()
      modifies this
      ensures Valid() && BaseView() == old(BaseView())
      ensures threw <==> !coin.script.unspendable && !overwrite && o in old(cacheCoins) && o in old(View())
      ensures View() == if threw || coin.script.unspendable then old(View()) else old(View())[o := coin]
      ensures cacheCoins == if threw || coin.script.unspendable then old(cacheCoins)
                            else old(cacheCoins)[o := AddedEntry(Lookup(old(cacheCoins), o), coin, overwrite)]
      ensures old(Accounted()) && !threw ==> Accounted()
      ensures old(Accounted()) && threw ==> (Accounted() <==> old(View())[o].Usage() == 0)
    {
      hide LayerOk, Overlay;
      ShapeFacts();
      if coin.script.unspendable {
        return false;
      }
      if o in cacheCoins {
        EntryIsSeen(cacheCoins, BaseView(), o);
      }
      var inserted := o !in cacheCoins;
      var prior := if inserted then Entry(EMPTY_COIN, false, false) else cacheCoins[o];
      var markFresh := false;
      if !inserted {
        cachedCoinsUsage := cachedCoinsUsage - prior.coin.Usage();
      }
      if !overwrite {
        if !prior.coin.IsSpent() {
          return true;
        }
        markFresh := !prior.isDirty;
      }
      AddKeepsLayerIff(cacheCoins, BaseView(), o, coin, overwrite);
      TotalUsageWith(cacheCoins, o, Some(AddedEntry(Lookup(cacheCoins, o), coin, overwrite)));
      cacheCoins := cacheCoins[o := Entry(coin, true, prior.isFresh || markFresh)];
      cachedCoinsUsage := cachedCoinsUsage + coin.Usage();
      return false;
    }

    /** Erases a FRESH entry, clears any other. */
    method EraseOrClear(o: OutPoint)
      requires o in cacheCoins
      modifies this
      ensures cacheCoins == Spent(old(cacheCoins), o)
      ensures old(Accounted()) ==> Accounted()
    {
      SpentUsage(cacheCoins, o);
      cachedCoinsUsage := cachedCoinsUsage - cacheCoins[o].coin.Usage();
      if cacheCoins[o].isFresh {
        cacheCoins := cacheCoins - {o};
      } else {
        cacheCoins := cacheCoins[o := Entry(EMPTY_COIN, true, false)];
      }
    }

    /** Spends a coin, whatever the state of its entry; the result only says that an entry was found. */
    method SpendCoin(o: OutPoint) returns (found: bool, moveout: Coin)
      requires Valid()
      modifies Repr - {db}
      ensures Valid() && (old(Accounted()) ==> Accounted())
      ensures View() == old(View()) - {o} && BaseView() == old(BaseView())
      ensures found <==> o in old(cacheCoins) || o in old(View())
      ensures moveout == if o in old(View()) then old(View())[o] else EMPTY_COIN
      ensures cacheCoins == if o in old(cacheCoins) then Spent(old(cacheCoins), o)
                            else if found then old(cacheCoins)[o := Entry(EMPTY_COIN, true, false)] else old(cacheCoins)
    {
      hide LayerOk, Overlay;
      found := FetchCoin(o);
      ShapeFacts();
      moveout := EMPTY_COIN;
      if !found {
        return;
      }
      EntryIsSeen(cacheCoins, BaseView(), o);
      SpendRemovesTheCoin(cacheCoins, BaseView(), o);
      moveout := cacheCoins[o].coin;
      EraseOrClear(o);
    }

    method Uncache(o: OutPoint)
      requires Valid()
      modifies this
      ensures Valid() && (old(Accounted()) ==> Accounted())
      ensures View() == old(View()) && BaseView() == old(BaseView())
      ensures cacheCoins == if o in old(cacheCoins) && !old(cacheCoins)[o].isDirty && !old(cacheCoins)[o].isFresh
                            then old(cacheCoins) - {o} else old(cacheCoins)
    {
      ShapeFacts();
      if o in cacheCoins && !cacheCoins[o].isDirty && !cacheCoins[o].isFresh {
        UncacheKeepsTheView(cacheCoins, BaseView(), o);
        TotalUsageWith(cacheCoins, o, None);
        cachedCoinsUsage := cachedCoinsUsage - cacheCoins[o].coin.Usage();
        cacheCoins := cacheCoins - {o};
      }
    }

    /** One round of BatchWrite. `threw` is the logic_error for a misapplied FRESH flag. */
    method WriteOne(o: OutPoint, it: Entry) returns (threw: bool)
      modifies this
      ensures threw <==> MisappliedAt(map[o := it], old(cacheCoins), o)
      ensures !threw ==> cacheCoins == With(old(cacheCoins), o, MergeEntry(Lookup(old(cacheCoins), o), it))
      ensures old(Accounted()) ==> Accounted()
    {
      threw := false;
      if !it.isDirty {
        return;
      }
      TotalUsageWith(cacheCoins, o, MergeEntry(Lookup(cacheCoins, o), it));
      if o !in cacheCoins {
        if !(it.isFresh && it.coin.IsSpent()) {
          cacheCoins := cacheCoins[o := Entry(it.coin, true, it.isFresh)];
          cachedCoinsUsage := cachedCoinsUsage + it.coin.Usage();
        }
      } else {
        var us := cacheCoins[o];
        if it.isFresh && !us.coin.IsSpent() {
          return true;
        }
        if us.isFresh && it.coin.IsSpent() {
          cachedCoinsUsage := cachedCoinsUsage - us.coin.Usage();
          cacheCoins := cacheCoins - {o};
        } else {
          cachedCoinsUsage := cachedCoinsUsage - us.coin.Usage();
          cacheCoins := cacheCoins[o := Entry(it.coin, true, us.isFresh)];
          cachedCoinsUsage := cachedCoinsUsage + it.coin.Usage();
        }
      }
    }

    /** Takes over the entries of a child cache, in any order. */
    method BatchWrite(mapCoins: Cache, erase: bool) returns (threw: bool, rest: Cache)
      modifies this
      ensures threw <==> Misapplied(mapCoins, old(cacheCoins))
      ensures !threw ==> cacheCoins == Merged(mapCoins, old(cacheCoins), mapCoins.Keys)
      ensures !threw ==> rest == if erase then map[] else mapCoins
      ensures old(Accounted()) ==> Accounted()
    {
      threw := false;
      var keys, done := mapCoins.Keys, {};
      rest := mapCoins;
      while keys != {}
        invariant done !! keys && done + keys == mapCoins.Keys
        invariant cacheCoins == Merged(mapCoins, old(cacheCoins), done)
        invariant forall o :: o in done ==> !MisappliedAt(mapCoins, old(cacheCoins), o)
        invariant rest == if erase then mapCoins - done else mapCoins
        invariant old(Accounted()) ==> Accounted()
        invariant !threw
        decreases keys
      {
        var o :| o in keys;
        MergedStep(mapCoins, old(cacheCoins), done, o);
        threw := WriteOne(o, mapCoins[o]);
        if threw {
          assert MisappliedAt(mapCoins, old(cacheCoins), o);
          return;
        }
        if erase {
          rest := rest - {o};
        }
        keys, done := keys - {o}, done + {o};
      }
    }

    /** The virtual call base->BatchWrite(cacheCoins): the view below becomes this cache's view. */
    method WriteToBase(erase: bool) returns (threw: bool, rest: Cache)
      requires Valid()
      modifies Repr - {this}
      ensures Shape() && !threw
      ensures BaseView() == old(View())
      ensures base == null ==> AllUnspent(db.coins)
      ensures base != null ==> base.Valid() && base.Accounted()
      ensures rest == if erase then map[] else cacheCoins
    {
      ShapeFacts();
      if base == null {
        PersistKeepsTheView(cacheCoins, db.coins);
        rest := db.BatchWrite(cacheCoins, erase);
        threw := false;
      } else {
        base.ShapeFacts();
        assert base.Valid() && BaseView() == base.View();
        MergeKeepsTheView(cacheCoins, base.cacheCoins, base.BaseView());
        threw, rest := base.BatchWrite(cacheCoins, erase);
      }
    }

    /** Pushes everything down and empties this cache; neither logic_error is reachable. */
    method Flush() returns (threw: bool)
      requires Valid()
      modifies Repr
      ensures Valid() && Accounted() && !threw
      ensures View() == old(View()) && BaseView() == old(View()) && cacheCoins == map[]
    {
      ShapeFacts();
      threw, cacheCoins := WriteToBase(true);
      cachedCoinsUsage := 0;
      threw := threw || cacheCoins != map[];
    }

    /** Drops the spent entries and clears the flags of the others. */
    method ClearFlags()
      modifies this
      ensures cacheCoins == Cleaned(old(cacheCoins))
      ensures old(Accounted()) ==> Accounted()
    {
      var keys, done := cacheCoins.Keys, {};
      while keys != {}
        invariant done !! keys && done + keys == old(cacheCoins).Keys
        invariant cacheCoins == CleanedOn(old(cacheCoins), done)
        invariant old(Accounted()) ==> Accounted()
        decreases keys
      {
        var o :| o in keys;
        CleanedStep(old(cacheCoins), done, o);
        TotalUsageWith(cacheCoins, o, CleanEntry(cacheCoins[o]));
        if cacheCoins[o].coin.IsSpent() {
          cachedCoinsUsage := cachedCoinsUsage - cacheCoins[o].coin.Usage();
          cacheCoins := cacheCoins - {o};
        } else {
          cacheCoins := cacheCoins[o := Entry(cacheCoins[o].coin, false, false)];
        }
        keys, done := keys - {o}, done + {o};
      }
    }

    /** Pushes everything down and keeps the unspent coins, now clean. */
    method Sync() returns (threw: bool)
      requires Valid()
      modifies Repr
      ensures Valid() && !threw && (old(Accounted()) ==> Accounted())
      ensures View() == old(View()) && BaseView() == old(View())
      ensures cacheCoins == Cleaned(old(cacheCoins))
    {
      ShapeFacts();
      CleanedIsRight(cacheCoins, BaseView());
      var rest;
      threw, rest := WriteToBase(false);
      ClearFlags();
    }

    /** The assertions of SanityCheck, as a result. */
    method SanityCheck() returns (ok: bool)
      ensures ok <==> (forall o :: o in cacheCoins ==> LegalFlags(cacheCoins[o])) && Accounted()
    {
      var recomputed, keys, done := 0, cacheCoins.Keys, {};
      assert (map o | o in keys :: cacheCoins[o]) == cacheCoins;
      while keys != {}
        invariant done !! keys && done + keys == cacheCoins.Keys
        invariant forall o :: o in done ==> LegalFlags(cacheCoins[o])
        invariant recomputed + TotalUsage(map o | o in keys :: cacheCoins[o]) == TotalUsage(cacheCoins)
        decreases keys
      {
        var o :| o in keys;
        var e := cacheCoins[o];
        ghost var left := map p | p in keys :: cacheCoins[p];
        TotalUsageWithout(left, o);
        assert left - {o} == map p | p in keys - {o} :: cacheCoins[p];
        var attr := (if e.isDirty then 1 else 0) + (if e.isFresh then 2 else 0) + (if e.coin.IsSpent() then 4 else 0);
        if attr == 2 || attr == 4 || attr == 7 {
          assert !LegalFlags(e);
          return false;
        }
        recomputed := recomputed + e.coin.Usage();
        keys, done := keys - {o}, done + {o};
      }
      return recomputed == cachedCoinsUsage;
    }

    /** One round of AddCoins: the overwrite flag is looked up, or granted to coinbases. */
    method AddOutput(o: OutPoint, coin: Coin, check: bool) returns (threw: bool)
      requires Valid()
      requires !coin.IsSpent() && (check || coin.coinBase || o !in View())
      modifies Repr - {db}
      ensures Valid() && (old(Accounted()) ==> Accounted()) && !threw
      ensures View() == if coin.script.unspendable then old(View()) else old(View())[o := coin]
    {
      ShapeFacts();
      var overwrite := coin.coinBase;
      if check {
        overwrite := HaveCoin(o);
      }
      threw := AddCoin(o, coin, overwrite);
    }

    /** Adds the outputs of a transaction. With `check` the caller owes nothing; without it only
        a coinbase may meet an unspent coin of the same name. */
    method AddCoins(tx: Tx, height: nat, check: bool) returns (threw: bool)
      requires Valid()
      requires forall i :: 0 <= i < |tx.outputs| ==> tx.outputs[i].0 != -1
      requires check || tx.coinBase || forall i: nat :: i < |tx.outputs| ==> OutPoint(tx.txid, i) !in View()
      modifies Repr - {db}
      ensures Valid() && (old(Accounted()) ==> Accounted()) && !threw
      ensures View() == WithOutputs(old(View()), tx, height, |tx.outputs|)
    {
      threw := false;
      var i := 0;
      while i < |tx.outputs|
        invariant 0 <= i <= |tx.outputs|
        invariant Valid() && (old(Accounted()) ==> Accounted()) && !threw
        invariant View() == WithOutputs(old(View()), tx, height, i)
      {
        WithOutputsAt(old(View()), tx, height, i, OutPoint(tx.txid, i));
        threw := AddOutput(OutPoint(tx.txid, i), OutputCoin(tx, height, i), check);
        i := i + 1;
      }
    }

    /** Any run of calls on the top of a stack answers as one plain UTXO map would, and leaves
        the stack standing for that map. */
    method Replay(calls: seq<Call>) returns (answers: seq<Answer>)
      requires Valid() && Accounted()
      requires Respects(View(), calls)
      modifies Repr
      ensures Valid() && Accounted()
      ensures answers == Answers(old(View()), calls)
      ensures View() == After(old(View()), calls)
    {
      answers := [];
      var i := 0;
      assert calls[..|calls|] == calls && calls[..0] == [];
      while i < |calls|
        invariant 0 <= i <= |calls|
        invariant Valid() && Accounted()
        invariant Respects(View(), calls[i..])
        invariant answers + Answers(View(), calls[i..]) == Answers(old(View()), calls)
        invariant After(View(), calls[i..]) == After(old(View()), calls)
      {
        assert calls[i..][0] == calls[i] && calls[i..][1..] == calls[i + 1..];
        ghost var rest := Answers(View(), calls[i..]);
        var answer := Perform(calls[i]);
        assert rest == [answer] + Answers(View(), calls[i + 1..]);
        answers := answers + [answer];
        i := i + 1;
      }
    }

    method Perform(call: Call) returns (answer: Answer)
      requires Valid() && Accounted()
      requires Allowed(View(), call)
      modifies Repr
      ensures Valid() && Accounted()
      ensures answer == Reply(old(View()), call)
      ensures View() == Effect(old(View()), call)
    {
      ShapeFacts();
      answer := Done;
      match call
      case Get(o) =>
        var found, coin := GetCoin(o);
        answer := if found then Found(coin) else Missing;
      case Have(o) =>
        var have := HaveCoin(o);
        answer := if have then Present else Missing;
      case Access(o) =>
        var coin := AccessCoin(o);
        answer := Found(coin);
      case Add(o, coin, overwrite) =>
        var threw := AddCoin(o, coin, overwrite);
        assert !threw;
      case Spend(o) =>
        var found, coin := SpendCoin(o);
        answer := Found(coin);
      case Uncache(o) =>
        Uncache(o);
      case Sync =>
        var threw := Sync();
      case Flush =>
        var threw := Flush();
    }

    /** Flushing layer by layer leaves the database equal to the map seen from the top. */
    method FlushAll()
      requires Valid()
      modifies Repr
      ensures Valid() && Accounted()
      ensures db.coins == old(View()) && View() == old(View())
      decreases depth
    {
      ShapeFacts();
      var threw := Flush();
      if base != null {
        base.ShapeFacts();
        base.FlushAll();
      }
    }
  }
}
