/**
 The coin views as the program keeps them: linked objects, each with a map it
 fills and empties in place, down to the database.  Each method is proved to do
 what its function in module CoinsModel says to the whole stack.
 */
module CoinsView {
  import opened Options
  import opened CoinsModel
  import opened CoinsTheorems
  import Model = CoinsModel

  class CCoinsView {
    /** The entries of a cache. */
    var cacheCoins: Entries
    /** The contents of the database. */
    var coins: map<OutPoint, Coin>
    /** The view below; the database has none. */
    const base: CCoinsView?
    ghost const depth: nat
    ghost const Repr: set<object>

    ghost predicate Valid()
      decreases depth
    {
      if base == null then Repr == {this}
      else base.depth < depth && base.Valid() && this !in base.Repr && Repr == {this} + base.Repr
    }

    /** The stack from this view down, as a value. */
    ghost function Abs(): View
      requires Valid()
      reads Repr
      decreases depth
    {
      if base == null then Db(coins) else Cache(cacheCoins, base.Abs())
    }

    constructor Database(coins: map<OutPoint, Coin>)
      ensures Valid() && base == null && fresh(Repr) && Abs() == Db(coins)
    {
      this.coins, cacheCoins, base, depth, Repr := coins, map[], null, 0, {this};
    }

    constructor OnTopOf(view: CCoinsView)
      requires view.Valid()
      ensures Valid() && base == view && fresh(Repr - view.Repr) && Abs() == Cache(map[], old(view.Abs()))
    {
      coins, cacheCoins, base, depth, Repr := map[], map[], view, view.depth + 1, {this} + view.Repr;
    }

    method GetCoin(o: OutPoint) returns (found: bool, coin: Coin)
      requires Valid()
      modifies Repr
      ensures Abs() == Model.GetCoin(old(Abs()), o).0
      ensures found <==> Model.GetCoin(old(Abs()), o).1.Some?
      ensures found ==> Model.GetCoin(old(Abs()), o).1 == Some(coin)
      decreases depth, 1
    {
      if base == null {
        found := o in coins;
        coin := if found then coins[o] else EMPTY_COIN;
      } else {
        var e: Entry;
        found, e := FetchCoin(o);
        coin := e.coin;
        found := found && !coin.IsSpent();
      }
    }

    method FetchCoin(o: OutPoint) returns (found: bool, e: Entry)
      requires Valid() && base != null
      modifies Repr
      ensures Abs() == Model.FetchCoin(old(Abs()), o).0
      ensures found <==> Model.FetchCoin(old(Abs()), o).1.Some?
      ensures found ==> Model.FetchCoin(old(Abs()), o).1 == Some(e) && o in cacheCoins && cacheCoins[o] == e
      decreases depth, 0
    {
      if o in cacheCoins {
        return true, cacheCoins[o];
      }
      var have, tmp := base.GetCoin(o);
      if !have {
        return false, Entry(EMPTY_COIN, false, false);
      }
      e := Entry(tmp, false, false);
      if tmp.IsSpent() {
        e := e.(isFresh := true);
      }
      cacheCoins := cacheCoins[o := e];
      found := true;
    }

    method HaveCoin(o: OutPoint) returns (have: bool)
      requires Valid() && Inv(Abs()) && base != null
      modifies Repr
      ensures have <==> Lookup(old(Abs()), o).Some?
      ensures Inv(Abs()) && Same(old(Abs()), Abs())
    {
      FetchCoinOk(Abs(), o);
      var found, e := FetchCoin(o);
      have := found && !e.coin.IsSpent();
    }

    /** Adds a coin, unless an unspent coin of this cache would be overwritten although that was ruled out. */
    method AddCoin(o: OutPoint, coin: Coin, possibleOverwrite: bool) returns (threw: bool)
      requires Valid() && base != null && !coin.IsSpent()
      modifies this
      ensures threw <==> AddThrows(old(Abs()), o, coin, possibleOverwrite)
      ensures !threw ==> Abs() == Model.AddCoin(old(Abs()), o, coin, possibleOverwrite)
    {
      if IsUnspendable(coin.script) {
        return false;
      }
      var inserted := o !in cacheCoins;
      if inserted {
        cacheCoins := cacheCoins[o := Entry(EMPTY_COIN, false, false)];
      }
      var makeFresh := false;
      if !possibleOverwrite {
        if !cacheCoins[o].coin.IsSpent() {
          return true;
        }
        makeFresh := !cacheCoins[o].dirty;
      }
      cacheCoins := cacheCoins[o := Entry(coin, true, cacheCoins[o].isFresh || makeFresh)];
      threw := false;
    }

    method SpendCoin(o: OutPoint) returns (found: bool, moved: Coin)
      requires Valid() && base != null
      modifies Repr
      ensures Abs() == Model.SpendCoin(old(Abs()), o).0
      ensures found <==> Model.SpendCoin(old(Abs()), o).1.Some?
      ensures found ==> Model.SpendCoin(old(Abs()), o).1 == Some(moved)
    {
      var e: Entry;
      found, e := FetchCoin(o);
      moved := e.coin;
      if !found {
        return;
      }
      if e.isFresh {
        cacheCoins := cacheCoins - {o};
      } else {
        cacheCoins := cacheCoins[o := Entry(EMPTY_COIN, true, e.isFresh)];
      }
    }

    method Uncache(o: OutPoint)
      requires Valid() && base != null
      modifies this
      ensures Abs() == Model.Uncache(old(Abs()), o)
    {
      if o in cacheCoins && !cacheCoins[o].dirty && !cacheCoins[o].isFresh {
        cacheCoins := cacheCoins - {o};
      }
    }

    /** Takes over the dirty entries of the cache above, in any order. */
    method BatchWrite(theirs: Entries) returns (ok: bool)
      requires Valid()
      modifies this
      ensures ok <==> base == null || forall o :: !Misapplied(old(cacheCoins), theirs, o)
      ensures ok ==> Abs() == Model.BatchWrite(old(Abs()), theirs)
    {
      if base == null {
        WriteAll(theirs);
        return true;
      }
      ghost var ours := cacheCoins;
      var rest := theirs;
      while rest != map[]
        invariant rest.Keys <= theirs.Keys && forall o | o in rest :: rest[o] == theirs[o]
        invariant forall o ::
            && Get(cacheCoins, o) == (if o in rest then Get(ours, o) else MergedAt(ours, theirs, o))
            && (o !in rest ==> !Misapplied(ours, theirs, o))
        decreases |rest.Keys|
      {
        var o :| o in rest;
        var e := rest[o];
        rest := rest - {o};
        assert Get(cacheCoins, o) == Get(ours, o);
        if !e.dirty {
          continue;
        }
        if o in cacheCoins && e.isFresh && !cacheCoins[o].coin.IsSpent() {
          assert Misapplied(ours, theirs, o);
          return false;
        }
        MergeOne(o, e);
      }
      forall o ensures Get(cacheCoins, o) == Get(Merged(ours, theirs), o) {
        MergedGet(ours, theirs, o);
      }
      EntriesExt(cacheCoins, Merged(ours, theirs));
      ok := true;
    }

    /** One dirty entry of the cache above. */
    method MergeOne(o: OutPoint, e: Entry)
      modifies this`cacheCoins
      ensures Get(cacheCoins, o) == MergeEntry(Get(old(cacheCoins), o), e)
      ensures forall p | p != o :: Get(cacheCoins, p) == Get(old(cacheCoins), p)
    {
      if o !in cacheCoins {
        if !(e.isFresh && e.coin.IsSpent()) {
          var entry := Entry(e.coin, true, false);
          if e.isFresh {
            entry := entry.(isFresh := true);
          }
          cacheCoins := cacheCoins[o := entry];
        }
      } else if cacheCoins[o].isFresh && e.coin.IsSpent() {
        cacheCoins := cacheCoins - {o};
      } else {
        cacheCoins := cacheCoins[o := cacheCoins[o].(coin := e.coin, dirty := true)];
      }
    }

    /** The database: dirty entries are written, spent ones erased. */
    method WriteAll(theirs: Entries)
      modifies this`coins
      ensures coins == Written(old(coins), theirs)
    {
      ghost var before := coins;
      var rest := theirs;
      while rest != map[]
        invariant rest.Keys <= theirs.Keys && forall o | o in rest :: rest[o] == theirs[o]
        invariant forall o :: Get(coins, o) == if o in rest then Get(before, o) else WrittenAt(before, theirs, o)
        decreases |rest.Keys|
      {
        var o :| o in rest;
        var e := rest[o];
        rest := rest - {o};
        if e.dirty {
          coins := if e.coin.IsSpent() then coins - {o} else coins[o := e.coin];
        }
      }
      forall o ensures Get(coins, o) == Get(Written(before, theirs), o) {
        WrittenGet(before, theirs, o);
      }
      MapExt(coins, Written(before, theirs));
    }

    /** Pushes the changes of this cache to the view below and empties it. */
    method Flush() returns (ok: bool)
      requires Valid() && Inv(Abs()) && base != null
      modifies Repr
      ensures ok && Abs() == Model.Flush(old(Abs()))
    {
      BatchWriteOk(Abs());
      ok := base.BatchWrite(cacheCoins);
      cacheCoins := map[];
    }
  }

  lemma EntriesExt(a: Entries, b: Entries)
    requires forall o :: Get(a, o) == Get(b, o)
    ensures a == b
  {
    forall o ensures o in a <==> o in b {
      assert Get(a, o) == Get(b, o);
    }
    forall o | o in a ensures a[o] == b[o] {
      assert Get(a, o) == Get(b, o);
    }
    assert a.Keys == b.Keys;
  }
}
