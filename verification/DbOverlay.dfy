/**
 A database transaction as an overlay: pending writes and deletes over a parent
 store.  This module states what the overlay means and what iterating over it
 must visit.
 */
module DbOverlay {
  type Byte = x: int | 0 <= x < 256
  type Key = seq<Byte>

  /** A value and its serialized size. */
  datatype Value = Value(content: int, size: nat)

  type Store = map<Key, Value>

  // ---------------------------------------------------------------- key order

  /** Lexicographic order of byte strings. */
  predicate Less(a: Key, b: Key) {
    if b == [] then false
    else if a == [] then true
    else a[0] < b[0] || (a[0] == b[0] && Less(a[1..], b[1..]))
  }

  lemma {:induction false} LessTransitive(a: Key, b: Key, c: Key)
    requires Less(a, b) && Less(b, c)
    ensures Less(a, c)
  {
    if a != [] && a[0] == b[0] == c[0] {
      LessTransitive(a[1..], b[1..], c[1..]);
    }
  }

  lemma {:induction false} LessTotal(a: Key, b: Key)
    ensures a == b || Less(a, b) || Less(b, a)
  {
    if a != [] && b != [] && a[0] == b[0] {
      LessTotal(a[1..], b[1..]);
      if a[1..] == b[1..] {
        assert a == [a[0]] + a[1..] && b == [b[0]] + b[1..];
      }
    }
  }

  ghost predicate Sorted(s: seq<Key>) {
    forall i, j | 0 <= i < j < |s| :: Less(s[i], s[j])
  }

  ghost function Elements(s: seq<Key>): set<Key> { set k | k in s }

  // ------------------------------------------------------------------ overlay

  datatype Overlay = Overlay(writes: Store, deletes: set<Key>)

  ghost predicate Disjoint(o: Overlay) { forall k | k in o.deletes :: k !in o.writes }

  /** The store a reader of the transaction sees. */
  function View(parent: Store, o: Overlay): Store { (parent - o.deletes) + o.writes }

  function Put(o: Overlay, k: Key, v: Value): Overlay { Overlay(o.writes[k := v], o.deletes - {k}) }

  function Remove(o: Overlay, k: Key): Overlay { Overlay(o.writes - {k}, o.deletes + {k}) }

  /** A write or an erase on the overlay is that write or erase on what readers see. */
  lemma PutView(parent: Store, o: Overlay, k: Key, v: Value)
    requires Disjoint(o)
    ensures Disjoint(Put(o, k, v)) && View(parent, Put(o, k, v)) == View(parent, o)[k := v]
  {
  }

  lemma RemoveView(parent: Store, o: Overlay, k: Key)
    requires Disjoint(o)
    ensures Disjoint(Remove(o, k)) && View(parent, Remove(o, k)) == View(parent, o) - {k}
  {
    assert forall x :: x in View(parent, Remove(o, k)) <==> x in View(parent, o) - {k};
  }

  // ------------------------------------------------------------ memory in use

  ghost function AnyKey(s: set<Key>): (k: Key)
    requires s != {}
    ensures k in s
  {
    var k :| k in s;
    k
  }

  /** The bytes of a set of keys. */
  ghost function KeyBytes(s: set<Key>): nat {
    if s == {} then 0 else var k := AnyKey(s); |k| + KeyBytes(s - {k})
  }

  lemma {:induction false} KeyBytesRemove(s: set<Key>, k: Key)
    requires k in s
    ensures KeyBytes(s) == |k| + KeyBytes(s - {k})
    decreases s
  {
    var x := AnyKey(s);
    if x != k {
      KeyBytesRemove(s - {x}, k);
      KeyBytesRemove(s - {k}, x);
      assert s - {x} - {k} == s - {k} - {x};
    }
  }

  /** The bytes of the keys and values of a store. */
  ghost function StoreBytes(m: Store): nat
    decreases |m|
  {
    if m.Keys == {} then 0 else
    var k := AnyKey(m.Keys);
    |k| + m[k].size + StoreBytes(m - {k})
  }

  lemma {:induction false} StoreBytesRemove(m: Store, k: Key)
    requires k in m
    ensures StoreBytes(m) == |k| + m[k].size + StoreBytes(m - {k})
    decreases |m|
  {
    var x := AnyKey(m.Keys);
    if x != k {
      StoreBytesRemove(m - {x}, k);
      StoreBytesRemove(m - {k}, x);
      assert m - {x} - {k} == m - {k} - {x};
    }
  }

  ghost function Usage(o: Overlay): nat { StoreBytes(o.writes) + KeyBytes(o.deletes) }

  /** What a write adds to the bytes in use. */
  lemma PutUsage(o: Overlay, k: Key, v: Value)
    requires Disjoint(o)
    ensures Usage(Put(o, k, v)) == Usage(o)
                                   - (if k in o.deletes then |k| else 0)
                                   - (if k in o.writes then |k| + o.writes[k].size else 0)
                                   + |k| + v.size
  {
    var w := Put(o, k, v).writes;
    StoreBytesRemove(w, k);
    assert w - {k} == o.writes - {k};
    if k in o.writes {
      StoreBytesRemove(o.writes, k);
    } else {
      assert o.writes - {k} == o.writes;
    }
    if k in o.deletes {
      KeyBytesRemove(o.deletes, k);
    } else {
      assert o.deletes - {k} == o.deletes;
    }
  }

  /** What an erase adds to the bytes in use. */
  lemma RemoveUsage(o: Overlay, k: Key)
    requires Disjoint(o)
    ensures Usage(Remove(o, k)) == Usage(o)
                                   - (if k in o.writes then |k| + o.writes[k].size else 0)
                                   + (if k in o.deletes then 0 else |k|)
  {
    if k in o.writes {
      StoreBytesRemove(o.writes, k);
    } else {
      assert o.writes - {k} == o.writes;
    }
    var d := o.deletes + {k};
    if k in o.deletes {
      assert d == o.deletes;
    } else {
      KeyBytesRemove(d, k);
      assert d - {k} == o.deletes;
    }
  }

  // --------------------------------------------------------------------- runs

  datatype Operation = Write(key: Key, value: Value) | Erase(key: Key)

  function Apply(o: Overlay, op: Operation): Overlay {
    match op
    case Write(k, v) => Put(o, k, v)
    case Erase(k) => Remove(o, k)
  }

  function ApplyDirect(s: Store, op: Operation): Store {
    match op
    case Write(k, v) => s[k := v]
    case Erase(k) => s - {k}
  }

  function Run(o: Overlay, ops: seq<Operation>): Overlay
    decreases |ops|
  {
    if ops == [] then o else Run(Apply(o, ops[0]), ops[1..])
  }

  function RunDirect(s: Store, ops: seq<Operation>): Store
    decreases |ops|
  {
    if ops == [] then s else RunDirect(ApplyDirect(s, ops[0]), ops[1..])
  }

  /** A transaction shows what the same operations would have made of the parent. */
  lemma {:induction false} RunsAreDirect(parent: Store, o: Overlay, ops: seq<Operation>)
    requires Disjoint(o)
    ensures Disjoint(Run(o, ops)) && View(parent, Run(o, ops)) == RunDirect(View(parent, o), ops)
    decreases |ops|
  {
    if ops != [] {
      match ops[0] {
        case Write(k, v) => PutView(parent, o, k, v);
        case Erase(k) => RemoveView(parent, o, k);
      }
      RunsAreDirect(parent, Apply(o, ops[0]), ops[1..]);
    }
  }

  // ---------------------------------------------------------------- iteration

  predicate Live(o: Overlay, k: Key) { k !in o.deletes && k !in o.writes }

  /** The keys of the parent that the overlay leaves alone. */
  function Kept(o: Overlay, keys: seq<Key>): seq<Key> {
    if keys == [] then [] else (if Live(o, keys[0]) then [keys[0]] else []) + Kept(o, keys[1..])
  }

  lemma KeptSkips(o: Overlay, keys: seq<Key>)
    requires keys != [] && !Live(o, keys[0])
    ensures Kept(o, keys) == Kept(o, keys[1..])
  {
  }

  /** Two sorted lists of different keys, merged. */
  function Merge(a: seq<Key>, b: seq<Key>): seq<Key>
    decreases |a| + |b|
  {
    if a == [] then b
    else if b == [] then a
    else if Less(b[0], a[0]) then [b[0]] + Merge(a, b[1..])
    else [a[0]] + Merge(a[1..], b)
  }

  lemma {:induction false} KeptElements(o: Overlay, keys: seq<Key>)
    ensures forall k :: k in Kept(o, keys) <==> k in keys && Live(o, k)
  {
    if keys != [] {
      KeptElements(o, keys[1..]);
      forall k
        ensures k in keys <==> k == keys[0] || k in keys[1..]
      {
        InList(keys, k);
      }
    }
  }

  lemma InList(keys: seq<Key>, k: Key)
    requires keys != []
    ensures k in keys <==> k == keys[0] || k in keys[1..]
  {
    assert keys == [keys[0]] + keys[1..];
  }

  lemma {:induction false} KeptSorted(o: Overlay, keys: seq<Key>)
    requires Sorted(keys)
    ensures Sorted(Kept(o, keys))
  {
    if keys != [] {
      SortedTail(keys);
      KeptSorted(o, keys[1..]);
      if Live(o, keys[0]) {
        KeptElements(o, keys[1..]);
        forall k | k in Kept(o, keys[1..])
          ensures Less(keys[0], k)
        {
          HeadIsLeast(keys, k);
        }
        SortedCons(keys[0], Kept(o, keys[1..]));
      }
    }
  }

  lemma SortedTail(s: seq<Key>)
    requires Sorted(s) && s != []
    ensures Sorted(s[1..])
  {
  }

  lemma HeadIsLeast(s: seq<Key>, k: Key)
    requires Sorted(s) && s != [] && k in s[1..]
    ensures Less(s[0], k)
  {
    var i :| 0 <= i < |s[1..]| && s[1..][i] == k;
    assert s[i + 1] == k;
  }

  lemma SortedCons(k: Key, s: seq<Key>)
    requires Sorted(s) && forall x | x in s :: Less(k, x)
    ensures Sorted([k] + s)
  {
    var r := [k] + s;
    forall i, j | 0 <= i < j < |r|
      ensures Less(r[i], r[j])
    {
      assert r[j] == s[j - 1];
    }
  }

  lemma {:induction false} MergeElements(a: seq<Key>, b: seq<Key>)
    ensures forall k :: k in Merge(a, b) <==> k in a || k in b
    decreases |a| + |b|
  {
    if a != [] && b != [] {
      if Less(b[0], a[0]) {
        MergeElements(a, b[1..]);
        forall k
          ensures k in b <==> k == b[0] || k in b[1..]
        {
          InList(b, k);
        }
      } else {
        MergeElements(a[1..], b);
        forall k
          ensures k in a <==> k == a[0] || k in a[1..]
        {
          InList(a, k);
        }
      }
    }
  }

  lemma {:induction false} MergeSorted(a: seq<Key>, b: seq<Key>)
    requires Sorted(a) && Sorted(b) && forall k | k in a :: k !in b
    ensures Sorted(Merge(a, b))
    decreases |a| + |b|
  {
    hide Sorted, Less;
    if a != [] && b != [] {
      if Less(b[0], a[0]) {
        SortedTail(b);
        MergeSorted(a, b[1..]);
        BelowAll(b[0], a);
        HeadBelowTail(b);
        MergeElements(a, b[1..]);
        SortedCons(b[0], Merge(a, b[1..]));
      } else {
        SortedTail(a);
        MergeSorted(a[1..], b);
        assert a[0] in a && b[0] in b;
        LessTotal(a[0], b[0]);
        BelowAll(a[0], b);
        HeadBelowTail(a);
        MergeElements(a[1..], b);
        SortedCons(a[0], Merge(a[1..], b));
      }
    }
  }

  lemma HeadBelowTail(s: seq<Key>)
    requires Sorted(s) && s != []
    ensures forall x | x in s[1..] :: Less(s[0], x)
  {
    hide Less;
  }

  lemma BelowAll(k: Key, s: seq<Key>)
    requires Sorted(s) && s != [] && Less(k, s[0])
    ensures forall x | x in s :: Less(k, x)
  {
    hide Less;
    forall x | x in s
      ensures Less(k, x)
    {
      if x != s[0] {
        LessTransitive(k, s[0], x);
      }
    }
  }

  /** What is left to visit: the keys of the parent and of the writes from two cursors on, merged. */
  ghost function Rest(o: Overlay, parentKeys: seq<Key>, writeKeys: seq<Key>, p: nat, w: nat): seq<Key>
    requires p <= |parentKeys| && w <= |writeKeys|
  {
    Merge(Kept(o, parentKeys[p..]), writeKeys[w..])
  }

  /** From the first position, iteration visits exactly the keys readers see, in order. */
  lemma VisitsView(parent: Store, o: Overlay, parentKeys: seq<Key>, writeKeys: seq<Key>)
    requires Sorted(parentKeys) && Sorted(writeKeys)
    requires Elements(parentKeys) == parent.Keys && Elements(writeKeys) == o.writes.Keys
    ensures var all := Rest(o, parentKeys, writeKeys, 0, 0);
            Sorted(all) && Elements(all) == View(parent, o).Keys
  {
    hide Sorted, Merge, Kept;
    KeptElements(o, parentKeys);
    KeptSorted(o, parentKeys);
    assert parentKeys[0..] == parentKeys && writeKeys[0..] == writeKeys;
    InElements(parentKeys);
    InElements(writeKeys);
    MergeSorted(Kept(o, parentKeys), writeKeys);
    MergeElements(Kept(o, parentKeys), writeKeys);
    var all := Merge(Kept(o, parentKeys), writeKeys);
    InElements(all);
    assert forall k :: k in all <==> k in View(parent, o).Keys;
  }

  lemma InElements(s: seq<Key>)
    ensures forall k :: k in s <==> k in Elements(s)
  {
  }

  /** The first position not below a key. */
  ghost predicate IsLowerBound(s: seq<Key>, k: Key, i: nat) {
    && i <= |s|
    && (forall j | 0 <= j < i :: Less(s[j], k))
    && (forall j | i <= j < |s| :: !Less(s[j], k))
  }

  /** After seeking a key, iteration visits exactly the keys readers see from that key on, in order. */
  lemma SeekVisits(parent: Store, o: Overlay, parentKeys: seq<Key>, writeKeys: seq<Key>, key: Key, p: nat, w: nat)
    requires Sorted(parentKeys) && Sorted(writeKeys)
    requires Elements(parentKeys) == parent.Keys && Elements(writeKeys) == o.writes.Keys
    requires IsLowerBound(parentKeys, key, p) && IsLowerBound(writeKeys, key, w)
    ensures var left := Rest(o, parentKeys, writeKeys, p, w);
            && Sorted(left)
            && forall k :: k in left <==> k in View(parent, o) && !Less(k, key)
  {
    hide Sorted, Merge, Kept, Less;
    SortedDrop(parentKeys, p);
    SortedDrop(writeKeys, w);
    KeptElements(o, parentKeys[p..]);
    KeptSorted(o, parentKeys[p..]);
    InElements(parentKeys);
    InElements(writeKeys);
    FromBound(parentKeys, key, p);
    FromBound(writeKeys, key, w);
    MergeSorted(Kept(o, parentKeys[p..]), writeKeys[w..]);
    MergeElements(Kept(o, parentKeys[p..]), writeKeys[w..]);
    forall k
      ensures k in Rest(o, parentKeys, writeKeys, p, w) <==> k in View(parent, o) && !Less(k, key)
    {
    }
  }

  lemma SortedDrop(s: seq<Key>, i: nat)
    requires Sorted(s) && i <= |s|
    ensures Sorted(s[i..])
  {
  }

  lemma FromBound(s: seq<Key>, key: Key, i: nat)
    requires IsLowerBound(s, key, i)
    ensures forall k :: k in s[i..] <==> k in s && !Less(k, key)
  {
    hide Less;
    forall k | k in s && !Less(k, key)
      ensures k in s[i..]
    {
      var j :| 0 <= j < |s| && s[j] == k;
      assert s[i..][j - i] == k;
    }
  }
}
