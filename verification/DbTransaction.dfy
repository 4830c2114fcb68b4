/**
 The transaction object and its iterator.  A transaction keeps its pending
 writes and deletes and a running count of their bytes; the iterator keeps a
 cursor in the writes and one in the parent, and shows the smaller key.
 */
module DbTransaction {
  import opened Options
  import opened DbOverlay

  /** A store that can be read, written and erased: a parent or a commit target. */
  class Database {
    var store: Store

    constructor (s: Store)
      ensures store == s
    {
      store := s;
    }

    method Write(k: Key, v: Value)
      modifies this
      ensures store == old(store)[k := v]
    {
      store := store[k := v];
    }

    method Erase(k: Key)
      modifies this
      ensures store == old(store) - {k}
    {
      store := store - {k};
    }
  }

  /** A store with the writes applied except some that are left. */
  ghost function Applied(start: Store, writes: Store, rest: set<Key>): Store { start + (writes - rest) }

  lemma AppliedEnds(start: Store, writes: Store)
    ensures Applied(start, writes, writes.Keys) == start && Applied(start, writes, {}) == start + writes
  {
    assert writes - {} == writes;
  }

  lemma AppliedStep(start: Store, writes: Store, rest: set<Key>, k: Key)
    requires k in rest && k in writes
    ensures Applied(start, writes, rest)[k := writes[k]] == Applied(start, writes, rest - {k})
  {
    var a, b := (start + (writes - rest))[k := writes[k]], start + (writes - (rest - {k}));
    forall x
      ensures (x in a <==> x in b) && (x in a ==> a[x] == b[x])
    {
    }
  }

  class CDBTransaction {
    const parent: Database
    const commitTarget: Database
    var writes: Store
    var deletes: set<Key>
    var memoryUsage: int

    ghost function Abs(): Overlay
      reads this
    {
      Overlay(writes, deletes)
    }

    /** Writes and deletes do not overlap, and the byte count is exact. */
    ghost predicate Valid()
      reads this
    {
      Disjoint(Abs()) && memoryUsage == Usage(Abs())
    }

    constructor (parent: Database, commitTarget: Database)
      ensures Valid() && this.parent == parent && this.commitTarget == commitTarget && Abs() == Overlay(map[], {})
    {
      this.parent, this.commitTarget := parent, commitTarget;
      writes, deletes, memoryUsage := map[], {}, 0;
    }

    method Write(k: Key, v: Value)
      requires Valid()
      modifies this
      ensures Valid() && Abs() == Put(old(Abs()), k, v)
      ensures View(parent.store, Abs()) == old(View(parent.store, Abs()))[k := v]
    {
      PutUsage(Abs(), k, v);
      PutView(parent.store, Abs(), k, v);
      if k in deletes {
        deletes := deletes - {k};
        memoryUsage := memoryUsage - |k|;
      }
      if k in writes {
        memoryUsage := memoryUsage - (|k| + writes[k].size);
      }
      writes := writes[k := v];
      memoryUsage := memoryUsage + |k| + v.size;
      assert Abs() == Put(old(Abs()), k, v) by { assert deletes == old(deletes) - {k}; }
    }

    method Read(k: Key) returns (r: Option<Value>)
      requires Valid()
      ensures var view := View(parent.store, Abs()); r == if k in view then Some(view[k]) else None
    {
      if k in deletes {
        return None;
      }
      if k in writes {
        return Some(writes[k]);
      }
      r := if k in parent.store then Some(parent.store[k]) else None;
    }

    method Exists(k: Key) returns (r: bool)
      requires Valid()
      ensures r <==> k in View(parent.store, Abs())
    {
      if k in deletes {
        return false;
      }
      if k in writes {
        return true;
      }
      r := k in parent.store;
    }

    method Erase(k: Key)
      requires Valid()
      modifies this
      ensures Valid() && Abs() == Remove(old(Abs()), k)
      ensures View(parent.store, Abs()) == old(View(parent.store, Abs())) - {k}
    {
      RemoveUsage(Abs(), k);
      RemoveView(parent.store, Abs(), k);
      if k in writes {
        memoryUsage := memoryUsage - (|k| + writes[k].size);
        writes := writes - {k};
      }
      if k !in deletes {
        deletes := deletes + {k};
        memoryUsage := memoryUsage + |k|;
      }
      assert Abs() == Remove(old(Abs()), k) by { assert writes == old(writes) - {k} && deletes == old(deletes) + {k}; }
    }

    method Clear()
      modifies this
      ensures Valid() && Abs() == Overlay(map[], {})
    {
      writes, deletes, memoryUsage := map[], {}, 0;
    }

    /** Applies the pending changes to the target and forgets them: a target equal to the parent becomes what readers
        saw. */
    method Commit()
      requires Valid()
      modifies this, commitTarget
      ensures Valid() && Abs() == Overlay(map[], {})
      ensures commitTarget.store == View(old(commitTarget.store), old(Abs()))
      ensures old(commitTarget.store) == old(parent.store) ==> commitTarget.store == old(View(parent.store, Abs()))
    {
      EraseAll();
      WriteAll();
      Clear();
    }

    method EraseAll()
      modifies commitTarget
      ensures commitTarget.store == old(commitTarget.store) - deletes
    {
      ghost var start := commitTarget.store;
      var left := deletes;
      while left != {}
        invariant left <= deletes
        invariant commitTarget.store == start - (deletes - left)
        decreases |left|
      {
        var k :| k in left;
        ghost var done := deletes - left;
        commitTarget.Erase(k);
        left := left - {k};
        assert deletes - left == done + {k};
        assert start - done - {k} == start - (done + {k});
      }
      assert deletes - {} == deletes;
    }

    method WriteAll()
      modifies commitTarget
      ensures commitTarget.store == old(commitTarget.store) + writes
    {
      ghost var start := commitTarget.store;
      hide Applied;
      var rest := writes.Keys;
      AppliedEnds(start, writes);
      while rest != {}
        invariant rest <= writes.Keys
        invariant commitTarget.store == Applied(start, writes, rest)
        decreases |rest|
      {
        var k :| k in rest;
        AppliedStep(start, writes, rest, k);
        commitTarget.Write(k, writes[k]);
        rest := rest - {k};
      }
    }

    /** The bytes in use: the count is never negative, so no guard against that is needed. */
    method GetMemoryUsage() returns (r: nat)
      requires Valid()
      ensures r == Usage(Abs())
    {
      r := memoryUsage;
    }
  }

  class CDBTransactionIterator {
    const transaction: CDBTransaction
    /** The keys of the parent and of the writes, each in order. */
    const parentKeys: seq<Key>
    const writeKeys: seq<Key>
    var parentIt: nat
    var transactionIt: nat
    var parentKey: Key
    var curIsParent: bool

    constructor (transaction: CDBTransaction, parentKeys: seq<Key>, writeKeys: seq<Key>)
      requires Sorted(parentKeys) && Sorted(writeKeys)
      requires Elements(parentKeys) == transaction.parent.store.Keys && Elements(writeKeys) == transaction.writes.Keys
      ensures this.transaction == transaction && this.parentKeys == parentKeys && this.writeKeys == writeKeys
      ensures Positioned()
    {
      this.transaction, this.parentKeys, this.writeKeys := transaction, parentKeys, writeKeys;
      parentIt, transactionIt := |parentKeys|, |writeKeys|;
      parentKey, curIsParent := [], false;
    }

    /** The cursors are in range over a transaction that has not changed. */
    ghost predicate Fits()
      reads this, transaction, transaction.parent
    {
      && parentIt <= |parentKeys| && transactionIt <= |writeKeys|
      && Sorted(parentKeys) && Sorted(writeKeys)
      && Elements(parentKeys) == transaction.parent.store.Keys
      && Elements(writeKeys) == transaction.writes.Keys
    }

    /** The parent cursor rests on a key that shows, and the smaller of the two keys is current. */
    ghost predicate Positioned()
      reads this, transaction, transaction.parent
    {
      && Fits()
      && (parentIt < |parentKeys| ==> parentKey == parentKeys[parentIt] && Live(transaction.Abs(), parentKey))
      && (parentIt < |parentKeys| || transactionIt < |writeKeys| ==> curIsParent == ParentFirst())
    }

    predicate ParentFirst()
      requires parentIt <= |parentKeys| && transactionIt <= |writeKeys|
      reads this
    {
      if parentIt == |parentKeys| then false
      else transactionIt == |writeKeys| || !Less(writeKeys[transactionIt], parentKey)
    }

    ghost function Remaining(): seq<Key>
      requires Fits()
      reads this, transaction, transaction.parent
    {
      Rest(transaction.Abs(), parentKeys, writeKeys, parentIt, transactionIt)
    }

    method SkipDeletedAndOverwritten()
      requires Fits()
      modifies this`parentIt, this`parentKey
      ensures Fits() && Remaining() == old(Remaining())
      ensures parentIt < |parentKeys| ==> parentKey == parentKeys[parentIt] && Live(transaction.Abs(), parentKey)
    {
      hide Merge, Sorted, Elements, Kept;
      while parentIt < |parentKeys|
        invariant Fits() && Remaining() == old(Remaining())
      {
        parentKey := parentKeys[parentIt];
        if parentKey !in transaction.deletes && parentKey !in transaction.writes {
          break;
        }
        KeptSkips(transaction.Abs(), parentKeys[parentIt..]);
        assert parentKeys[parentIt..][1..] == parentKeys[parentIt + 1..];
        parentIt := parentIt + 1;
      }
    }

    method DecideCur()
      requires Fits()
      requires parentIt < |parentKeys| ==> parentKey == parentKeys[parentIt] && Live(transaction.Abs(), parentKey)
      modifies this`curIsParent
      ensures Positioned()
    {
      hide Less, Sorted, Elements;
      if transactionIt < |writeKeys| && parentIt == |parentKeys| {
        curIsParent := false;
      } else if transactionIt == |writeKeys| && parentIt < |parentKeys| {
        curIsParent := true;
      } else if transactionIt < |writeKeys| && parentIt < |parentKeys| {
        curIsParent := !Less(writeKeys[transactionIt], parentKey);
      }
    }

    /** Starts over: what remains is every key readers see, in order. */
    method SeekToFirst()
      requires Fits()
      modifies this
      ensures Positioned() && Sorted(Remaining())
      ensures Elements(Remaining()) == View(transaction.parent.store, transaction.Abs()).Keys
    {
      hide Sorted, Elements, View, Rest;
      transactionIt, parentIt := 0, 0;
      VisitsView(transaction.parent.store, transaction.Abs(), parentKeys, writeKeys);
      SkipDeletedAndOverwritten();
      DecideCur();
    }

    /** Moves to a key: what remains is every key readers see from there on, in order. */
    method Seek(key: Key)
      requires Fits()
      modifies this
      ensures Positioned() && Sorted(Remaining())
      ensures forall k :: k in Remaining() <==> k in View(transaction.parent.store, transaction.Abs()) && !Less(k, key)
    {
      hide Sorted, Elements, View, Rest, Less;
      transactionIt := LowerBound(writeKeys, key);
      parentIt := LowerBound(parentKeys, key);
      SeekVisits(transaction.parent.store, transaction.Abs(), parentKeys, writeKeys, key, parentIt, transactionIt);
      SkipDeletedAndOverwritten();
      DecideCur();
    }

    static method LowerBound(s: seq<Key>, key: Key) returns (i: nat)
      requires Sorted(s)
      ensures IsLowerBound(s, key, i)
    {
      hide Less;
      i := 0;
      while i < |s| && Less(s[i], key)
        invariant 0 <= i <= |s| && forall j | 0 <= j < i :: Less(s[j], key)
      {
        i := i + 1;
      }
      forall j | i <= j < |s|
        ensures !Less(s[j], key)
      {
        if Less(s[j], key) && i < j {
          LessTransitive(s[i], s[j], key);
        }
      }
    }

    method HasCurrent() returns (r: bool)
      requires Positioned()
      ensures r <==> Remaining() != []
    {
      RemainingHead();
      r := transactionIt != |writeKeys| || parentIt < |parentKeys|;
    }

    /** The current key is the first that remains. */
    lemma RemainingHead()
      requires Positioned()
      ensures Remaining() == [] <==> parentIt == |parentKeys| && transactionIt == |writeKeys|
      ensures Remaining() != [] ==> Remaining()[0] == if curIsParent then parentKey else writeKeys[transactionIt]
    {
      hide Less, Sorted, Elements;
    }

    method GetKey() returns (k: Key)
      requires Positioned()
      ensures k == if Remaining() == [] then [] else Remaining()[0]
    {
      RemainingHead();
      if parentIt == |parentKeys| && transactionIt == |writeKeys| {
        return [];
      }
      k := if curIsParent then parentKey else writeKeys[transactionIt];
    }

    /** The value of the current key is the one a reader of the transaction gets. */
    method GetValue() returns (r: Option<Value>)
      requires Positioned() && transaction.Valid()
      ensures var view, left := View(transaction.parent.store, transaction.Abs()), Remaining();
              r == if left != [] && left[0] in view then Some(view[left[0]]) else None
    {
      hide View, Rest, Sorted, Elements;
      RemainingHead();
      if parentIt == |parentKeys| && transactionIt == |writeKeys| {
        return None;
      }
      r := transaction.Read(if curIsParent then parentKey else writeKeys[transactionIt]);
    }

    /** Moves past the current key. */
    method Next()
      requires Positioned()
      modifies this
      ensures Positioned() && Remaining() == if old(Remaining()) == [] then [] else old(Remaining())[1..]
    {
      hide Sorted, Elements, View, Less;
      RemainingHead();
      if transactionIt == |writeKeys| && parentIt == |parentKeys| {
        return;
      }
      RemainingTail();
      if curIsParent {
        parentIt := parentIt + 1;
        SkipDeletedAndOverwritten();
      } else {
        transactionIt := transactionIt + 1;
      }
      DecideCur();
    }

    lemma RemainingTail()
      requires Positioned() && (parentIt < |parentKeys| || transactionIt < |writeKeys|)
      ensures var o := transaction.Abs();
              Remaining() != []
              && Remaining()[1..] == if curIsParent then Rest(o, parentKeys, writeKeys, parentIt + 1, transactionIt)
                                                     else Rest(o, parentKeys, writeKeys, parentIt, transactionIt + 1)
    {
      hide Less, Sorted, Elements;
      if parentIt < |parentKeys| {
        assert parentKeys[parentIt..][1..] == parentKeys[parentIt + 1..];
      }
      if transactionIt < |writeKeys| {
        assert writeKeys[transactionIt..][1..] == writeKeys[transactionIt + 1..];
      }
    }
  }
}
