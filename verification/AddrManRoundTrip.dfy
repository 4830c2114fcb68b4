/**
 Loading what was saved under the same AS map gives the same manager, with the
 entries numbered anew: no entry is lost and every slot, reference count and
 counter comes back.
 */
module AddrManRoundTrip {
  import opened Options
  import opened AddrManModel
  import opened AddrManInvariant
  import opened AddrManStream
  import Sets

  ghost predicate AllKnown(m: Manager, ids: seq<int>) {
    forall k | 0 <= k < |ids| :: ids[k] in m.info
  }

  // ------------------------------------------------------------------ parsing

  ghost function Entries(m: Manager, ids: seq<int>): seq<Entry>
    requires AllKnown(m, ids)
  {
    seq(|ids|, k requires 0 <= k < |ids| => Persist(m.info[ids[k]]))
  }

  lemma {:induction false} TakeEntriesBack(m: Manager, ids: seq<int>, rest: seq<Token>)
    requires AllKnown(m, ids)
    ensures TakeEntries(EntryTokens(m, ids) + rest, |ids|) == Some((Entries(m, ids), rest))
  {
    var ts := EntryTokens(m, ids) + rest;
    if ids == [] {
      assert ts == rest && Entries(m, ids) == [];
    } else {
      TakeEntriesBack(m, ids[1..], rest);
      assert ts[1..] == EntryTokens(m, ids[1..]) + rest;
      assert Entries(m, ids) == [Persist(m.info[ids[0]])] + Entries(m, ids[1..]);
    }
  }

  /** The (bucket, entry) pairs of a list of cells. */
  ghost function Pairs(t: map<Slot, int>, cells: seq<Slot>, ids: seq<int>): seq<(nat, int)>
    requires forall k | 0 <= k < |cells| :: cells[k] in t
  {
    seq(|cells|, k requires 0 <= k < |cells| => (cells[k].bucket, IndexOf(ids, t[cells[k]]) as int))
  }

  lemma {:induction false} TakeIndexesBack(t: map<Slot, int>, cells: seq<Slot>, ids: seq<int>, bucket: nat,
                                           rest: seq<Token>)
    requires forall k | 0 <= k < |cells| :: cells[k] in t && cells[k].bucket == bucket && t[cells[k]] in ids
    ensures TakeIndexes(IndexTokens(t, cells, ids) + rest, bucket, |cells|, |ids|) == Some((Pairs(t, cells, ids), rest))
  {
    var ts := IndexTokens(t, cells, ids) + rest;
    if cells == [] {
      assert ts == rest && Pairs(t, cells, ids) == [];
    } else {
      TakeIndexesBack(t, cells[1..], ids, bucket, rest);
      assert ts[1..] == IndexTokens(t, cells[1..], ids) + rest;
      IndexOfFound(ids, t[cells[0]]);
      assert Pairs(t, cells, ids) == [(bucket, IndexOf(ids, t[cells[0]]) as int)] + Pairs(t, cells[1..], ids);
    }
  }

  lemma {:induction false} IndexOfFound(ids: seq<int>, id: int)
    requires id in ids
    ensures IndexOf(ids, id) < |ids| && ids[IndexOf(ids, id)] == id
  {
    if ids[0] != id {
      IndexOfFound(ids[1..], id);
    }
  }

  /** The occupied cells of the new buckets from a given one on, in the order they are written. */
  ghost function AllCells(t: map<Slot, int>, bucket: nat): (r: seq<Slot>)
    ensures forall k | 0 <= k < |r| :: r[k] in t
    decreases NEW_BUCKET_COUNT - bucket
  {
    if bucket >= NEW_BUCKET_COUNT then [] else CellsOf(t, bucket, BUCKET_SIZE) + AllCells(t, bucket + 1)
  }

  lemma {:induction false} TakeBucketsBack(t: map<Slot, int>, ids: seq<int>, bucket: nat, rest: seq<Token>)
    requires forall x | x in t :: t[x] in ids
    ensures TakeBuckets(BucketTokens(t, ids, bucket) + rest, bucket, NEW_BUCKET_COUNT, |ids|)
              == Some((Pairs(t, AllCells(t, bucket), ids), rest))
    decreases NEW_BUCKET_COUNT - bucket
  {
    hide CellsOf, IndexTokens, TakeIndexes, IndexOf;
    var ts := BucketTokens(t, ids, bucket) + rest;
    if bucket >= NEW_BUCKET_COUNT {
      assert ts == rest;
    } else {
      var cells := CellsOf(t, bucket, BUCKET_SIZE);
      var more := BucketTokens(t, ids, bucket + 1) + rest;
      assert ts[0] == IntToken(|cells|);
      assert ts[1..] == IndexTokens(t, cells, ids) + more;
      assert forall k | 0 <= k < |cells| :: t[cells[k]] in ids;
      TakeIndexesBack(t, cells, ids, bucket, more);
      TakeBucketsBack(t, ids, bucket + 1, rest);
      assert Pairs(t, AllCells(t, bucket), ids) == Pairs(t, cells, ids) + Pairs(t, AllCells(t, bucket + 1), ids);
    }
  }

  // ------------------------------------------------------------- numbering

  ghost predicate Distinct(s: seq<int>) { forall i, j | 0 <= i < j < |s| :: s[i] != s[j] }

  /** An iteration over all entries. */
  ghost predicate Enumerates(order: seq<int>, info: map<int, Info>) {
    Distinct(order) && forall id :: id in order <==> id in info
  }

  lemma {:induction false} NewOrderFacts(m: Manager, order: seq<int>)
    requires Distinct(order) && AllKnown(m, order)
    ensures Distinct(NewOrder(m, order))
    ensures forall id | id in order && m.info[id].refCount != 0 :: id in NewOrder(m, order)
  {
    if order != [] {
      var n := |order| - 1;
      NewOrderFacts(m, order[..n]);
      var r := NewOrder(m, order[..n]);
      forall k | 0 <= k < |r| ensures r[k] != order[n] {
        assert r[k] in order[..n];
      }
      forall id | id in order && m.info[id].refCount != 0 ensures id in NewOrder(m, order) {
        assert id == order[n] || id in order[..n];
      }
    }
  }

  lemma {:induction false} TriedOrderFacts(m: Manager, order: seq<int>)
    requires Distinct(order) && AllKnown(m, order)
    ensures Distinct(TriedOrder(m, order))
    ensures forall id | id in order && m.info[id].inTried :: id in TriedOrder(m, order)
  {
    if order != [] {
      var n := |order| - 1;
      TriedOrderFacts(m, order[..n]);
      var r := TriedOrder(m, order[..n]);
      forall k | 0 <= k < |r| ensures r[k] != order[n] {
        assert r[k] in order[..n];
      }
      forall id | id in order && m.info[id].inTried ensures id in TriedOrder(m, order) {
        assert id == order[n] || id in order[..n];
      }
    }
  }

  /** How loading numbers the entries: the new ones first, then the tried ones. */
  ghost predicate Numbering(m: Manager, ns: seq<int>, ts: seq<int>) {
    && (forall k | 0 <= k < |ns| :: ns[k] in m.info && !m.info[ns[k]].inTried)
    && (forall k | 0 <= k < |ts| :: ts[k] in m.info && m.info[ts[k]].inTried)
    && Distinct(ns + ts)
    && (forall id | id in m.info :: id in ns + ts)
  }

  lemma RefsSplit(m: Manager)
    requires Mid(m, {}, 0)
    ensures forall id | id in m.info :: m.info[id].inTried <==> m.info[id].refCount == 0
    ensures forall id | id in m.info :: m.info[id].refCount == |SlotsOf(m.newTable, id)| <= NEW_BUCKETS_PER_ADDRESS
  {
    hide RandomOk, AddrOk, TriedOk, NewIds, TriedIds;
    forall id | id in m.info && m.info[id].inTried ensures m.info[id].refCount == 0 {
      TriedHasNoSlots(m.hashing, m.info, m.newTable, id);
    }
  }

  lemma Known(m: Manager, order: seq<int>)
    requires Enumerates(order, m.info)
    ensures AllKnown(m, order)
  {
    forall k | 0 <= k < |order| ensures order[k] in m.info {
      assert order[k] in order;
    }
  }

  lemma JoinDistinct(m: Manager, ns: seq<int>, ts: seq<int>)
    requires Distinct(ns) && Distinct(ts)
    requires forall k | 0 <= k < |ns| :: ns[k] in m.info && !m.info[ns[k]].inTried
    requires forall k | 0 <= k < |ts| :: ts[k] in m.info && m.info[ts[k]].inTried
    ensures Distinct(ns + ts)
  {
    forall i, j | 0 <= i < j < |ns + ts| ensures (ns + ts)[i] != (ns + ts)[j] {
      if i < |ns| <= j {
        assert !m.info[ns[i]].inTried && m.info[ts[j - |ns|]].inTried;
      }
    }
  }

  lemma NumberingOf(m: Manager, order: seq<int>)
    requires Mid(m, {}, 0) && Enumerates(order, m.info)
    ensures AllKnown(m, order)
    ensures Numbering(m, NewOrder(m, order), TriedOrder(m, order))
  {
    hide Mid, SlotsOf, NewOrder, TriedOrder, Distinct;
    RefsSplit(m);
    Known(m, order);
    NewOrderFacts(m, order);
    TriedOrderFacts(m, order);
    var ns, ts := NewOrder(m, order), TriedOrder(m, order);
    forall k | 0 <= k < |ns| ensures !m.info[ns[k]].inTried {
      var id := ns[k];
      assert id in m.info && m.info[id].refCount != 0;
      assert m.info[id].inTried <==> m.info[id].refCount == 0;
    }
    JoinDistinct(m, ns, ts);
    forall id | id in m.info ensures id in ns + ts {
      assert id in order;
      assert id in ns || id in ts;
    }
  }

  lemma NumberingCounts(m: Manager, ns: seq<int>, ts: seq<int>)
    requires Mid(m, {}, 0) && Numbering(m, ns, ts)
    ensures |ns| == m.nNew && |ts| == m.nTried
  {
    CountsOf(m);
    hide Mid;
    forall i, j | 0 <= i < j < |ns| ensures ns[i] != ns[j] {
      assert (ns + ts)[i] == ns[i] && (ns + ts)[j] == ns[j];
    }
    forall i, j | 0 <= i < j < |ts| ensures ts[i] != ts[j] {
      assert (ns + ts)[|ns| + i] == ts[i] && (ns + ts)[|ns| + j] == ts[j];
    }
    forall id ensures id in NewIds(m.info) <==> id in ns {
      if id in NewIds(m.info) {
        assert id in ns + ts;
      }
    }
    forall id ensures id in TriedIds(m.info) <==> id in ts {
      if id in TriedIds(m.info) {
        assert id in ns + ts;
      }
    }
    Sets.DistinctSize(ns, NewIds(m.info));
    Sets.DistinctSize(ts, TriedIds(m.info));
  }

  lemma CountsOf(m: Manager)
    requires Mid(m, {}, 0)
    ensures m.nNew == |NewIds(m.info)| && m.nTried == |TriedIds(m.info)|
  {
    hide RandomOk, AddrOk, TriedOk, NewSlotsOk, RefsOk, IdsOk;
    assert NewIds(m.info) - {} == NewIds(m.info);
  }

  // ------------------------------------------------------------------ entries

  ghost function Ident(n: nat): seq<int> { seq(n, k => k) }

  /** The entries loaded so far are those of a list, in order, the first nn of them new; none has a slot yet. */
  ghost predicate EntriesLoaded(m: Manager, w: Manager, all: seq<int>, nn: nat)
    requires AllKnown(m, all)
  {
    && w.idCount == |all|
    && (forall k: int :: k in w.info <==> 0 <= k < |all|)
    && (forall k | 0 <= k < |all| :: w.info[k] == Loaded(Persist(m.info[all[k]]), 0, k >= nn, k))
    && w.random == Ident(|all|)
    && AddrOk(true, w.info, w.addr)
  }

  /** An entry that is not loaded yet has a service that is not in the index yet. */
  lemma ServiceUnseen(m: Manager, w: Manager, all: seq<int>, nn: nat, id: int)
    requires AllKnown(m, all)
    requires AddrOk(m.discriminatePorts, m.info, m.addr) && EntriesLoaded(m, w, all, nn)
    requires id in m.info && id !in all
    ensures m.info[id].service !in w.addr
  {
    hide AddrOk;
    var s := m.info[id].service;
    if s in w.addr {
      IndexHit(w.info, w.addr, s);
      SameServiceSameId(m, all[w.addr[s]], id);
    }
  }

  lemma IndexHit(info: map<int, Info>, addr: map<Service, int>, s: Service)
    requires AddrOk(true, info, addr) && s in addr
    ensures addr[s] in info && info[addr[s]].service == s
  {
  }

  lemma SameServiceSameId(m: Manager, i: int, j: int)
    requires AddrOk(m.discriminatePorts, m.info, m.addr) && i in m.info && j in m.info
    requires m.info[i].service == m.info[j].service
    ensures i == j
  {
  }

  lemma OneMoreLoaded(m: Manager, w: Manager, all: seq<int>, nn: nat, id: int, w': Manager)
    requires AllKnown(m, all)
    requires AddrOk(m.discriminatePorts, m.info, m.addr) && EntriesLoaded(m, w, all, nn)
    requires id in m.info && id !in all
    requires w'.idCount == |all| + 1 && w'.random == w.random + [|all|]
    requires w'.info == w.info[|all| := Loaded(Persist(m.info[id]), 0, |all| >= nn, |all|)]
    requires w'.addr == w.addr[m.info[id].service := |all|]
    ensures EntriesLoaded(m, w', all + [id], nn)
  {
    ServiceUnseen(m, w, all, nn, id);
    InsertAddr(true, w.info, w.addr, |all|, Loaded(Persist(m.info[id]), 0, |all| >= nn, |all|));
    assert w'.random == Ident(|all| + 1);
    hide AddrOk, Persist;
  }

  lemma LoadNewStep(discriminatePorts: bool, hashing: Hashing, collisions: set<int>, es: seq<Entry>)
    requires es != []
    ensures var n := |es| - 1;
            var w := LoadNew(discriminatePorts, hashing, collisions, es[..n]);
            LoadNew(discriminatePorts, hashing, collisions, es) ==
              w.(idCount := n + 1, nNew := n + 1,
                 info := w.info[n := Loaded(es[n], 0, false, |w.random|)],
                 addr := w.addr[es[n].service := n],
                 random := w.random + [n])
  {
    hide RandomOk;
  }

  ghost predicate NoTables(m: Manager, w: Manager, collisions: set<int>) {
    && w.discriminatePorts == m.discriminatePorts && w.hashing == m.hashing && w.collisions == collisions
    && w.nTried == 0 && w.newTable == map[] && w.triedTable == map[] && w.lastGood == 1
  }

  lemma LoadNewGrow(m: Manager, ns: seq<int>, n: nat, collisions: set<int>)
    requires AddrOk(m.discriminatePorts, m.info, m.addr) && Distinct(ns) && 0 < n <= |ns|
    requires AllKnown(m, ns)
    requires var w := LoadNew(m.discriminatePorts, m.hashing, collisions, Entries(m, ns[..n - 1]));
             EntriesLoaded(m, w, ns[..n - 1], |ns|) && NoTables(m, w, collisions)
    ensures var w := LoadNew(m.discriminatePorts, m.hashing, collisions, Entries(m, ns[..n]));
            EntriesLoaded(m, w, ns[..n], |ns|) && NoTables(m, w, collisions) && w.nNew == n
  {
    hide AddrOk, RandomOk, EntriesLoaded, LoadNew, Distinct;
    var es := Entries(m, ns[..n]);
    LoadNewStep(m.discriminatePorts, m.hashing, collisions, es);
    assert es[..n - 1] == Entries(m, ns[..n - 1]);
    assert ns[..n] == ns[..n - 1] + [ns[n - 1]];
    var w := LoadNew(m.discriminatePorts, m.hashing, collisions, es[..n - 1]);
    LoadedSize(m, w, ns[..n - 1], |ns|);
    NotAgain(ns, n - 1);
    OneMoreLoaded(m, w, ns[..n - 1], |ns|, ns[n - 1], LoadNew(m.discriminatePorts, m.hashing, collisions, es));
  }

  lemma LoadedSize(m: Manager, w: Manager, all: seq<int>, nn: nat)
    requires AllKnown(m, all) && EntriesLoaded(m, w, all, nn)
    ensures |w.random| == w.idCount == |all|
  {
    hide AddrOk;
  }

  lemma NotAgain(ns: seq<int>, n: nat)
    requires Distinct(ns) && n < |ns|
    ensures ns[n] !in ns[..n]
  {
  }

  lemma {:induction false} LoadNewFacts(m: Manager, ns: seq<int>, n: nat, collisions: set<int>)
    requires AddrOk(m.discriminatePorts, m.info, m.addr) && Distinct(ns) && n <= |ns|
    requires AllKnown(m, ns)
    ensures var w := LoadNew(m.discriminatePorts, m.hashing, collisions, Entries(m, ns[..n]));
            EntriesLoaded(m, w, ns[..n], |ns|) && NoTables(m, w, collisions) && w.nNew == n
  {
    if n == 0 {
      assert Entries(m, ns[..n]) == [];
      assert Ident(0) == [];
    } else {
      hide AddrOk, EntriesLoaded, NoTables, LoadNew;
      LoadNewFacts(m, ns, n - 1, collisions);
      LoadNewGrow(m, ns, n, collisions);
    }
  }

  /** The tried entries loaded so far sit in their slots. */
  ghost predicate TriedLoaded(m: Manager, w: Manager, collisions: set<int>, nn: nat, j: nat) {
    && w.discriminatePorts == m.discriminatePorts && w.hashing == m.hashing && w.collisions == collisions
    && w.nNew == nn && w.nTried == j && w.newTable == map[] && w.lastGood == 1
    && TriedOk(w.hashing, w.info, w.triedTable)
  }

  lemma SameSlotSameId(m: Manager, i: int, j: int)
    requires TriedOk(m.hashing, m.info, m.triedTable) && i in m.info && j in m.info
    requires m.info[i].inTried && m.info[j].inTried
    requires m.hashing.TriedSlot(m.info[i].service) == m.hashing.TriedSlot(m.info[j].service)
    ensures i == j
  {
  }

  lemma TriedHit(w: Manager, x: Slot)
    requires TriedOk(w.hashing, w.info, w.triedTable) && x in w.triedTable
    ensures var k := w.triedTable[x];
            k in w.info && w.info[k].inTried && x == w.hashing.TriedSlot(w.info[k].service)
  {
  }

  /** The slot of a tried entry that is not loaded yet is still free. */
  lemma SlotUnseen(m: Manager, w: Manager, all: seq<int>, nn: nat, id: int)
    requires AllKnown(m, all)
    requires forall k | nn <= k < |all| :: m.info[all[k]].inTried
    requires TriedOk(m.hashing, m.info, m.triedTable) && TriedOk(w.hashing, w.info, w.triedTable)
    requires EntriesLoaded(m, w, all, nn) && w.hashing == m.hashing
    requires id in m.info && m.info[id].inTried && id !in all
    ensures m.hashing.TriedSlot(m.info[id].service) !in w.triedTable
  {
    hide AddrOk, TriedOk, Hashing.TriedSlot;
    var x := m.hashing.TriedSlot(m.info[id].service);
    if x in w.triedTable {
      TriedHit(w, x);
      SameSlotSameId(m, all[w.triedTable[x]], id);
    }
  }

  lemma InsertTriedOk(h: Hashing, info: map<int, Info>, t: map<Slot, int>, id: int, i: Info)
    requires TriedOk(h, info, t) && id !in info && i.inTried && h.TriedSlot(i.service) !in t
    ensures TriedOk(h, info[id := i], t[h.TriedSlot(i.service) := id])
  {
  }

  lemma LoadTriedGrow(m: Manager, ns: seq<int>, ts: seq<int>, j: nat, w: Manager, collisions: set<int>)
    requires AddrOk(m.discriminatePorts, m.info, m.addr) && TriedOk(m.hashing, m.info, m.triedTable)
    requires Numbering(m, ns, ts) && j < |ts|
    requires AllKnown(m, ns + ts[..j])
    requires EntriesLoaded(m, w, ns + ts[..j], |ns|) && TriedLoaded(m, w, collisions, |ns|, j)
    ensures var w' := LoadOneTried(w, Persist(m.info[ts[j]]));
            && AllKnown(m, ns + ts[..j + 1])
            && EntriesLoaded(m, w', ns + ts[..j + 1], |ns|) && TriedLoaded(m, w', collisions, |ns|, j + 1)
  {
    hide AddrOk, TriedOk, Hashing.TriedSlot;
    var all := ns + ts[..j];
    var id := ts[j];
    assert id !in all by { NotBefore(ns, ts, j); }
    SlotUnseen(m, w, all, |ns|, id);
    var w' := LoadOneTried(w, Persist(m.info[id]));
    InsertTriedOk(w.hashing, w.info, w.triedTable, |all|, w'.info[|all|]);
    OneMoreLoaded(m, w, all, |ns|, id, w');
    assert all + [id] == ns + ts[..j + 1];
  }

  lemma NotBefore(ns: seq<int>, ts: seq<int>, j: nat)
    requires Distinct(ns + ts) && j < |ts|
    ensures ts[j] !in ns + ts[..j]
  {
    var all := ns + ts[..j];
    forall k | 0 <= k < |all| ensures all[k] != ts[j] {
      assert (ns + ts)[k] == all[k] && (ns + ts)[|ns| + j] == ts[j];
    }
  }

  lemma LoadTriedStep(w: Manager, es: seq<Entry>)
    requires RandomOk(w.info, w.random) && (forall k | k in w.info :: 0 <= k < w.idCount) && es != []
    ensures LoadTried(w, es) == LoadOneTried(LoadTried(w, es[..|es| - 1]), es[|es| - 1])
  {
    hide LoadOneTried;
  }

  lemma {:induction false} LoadTriedFacts(m: Manager, ns: seq<int>, ts: seq<int>, j: nat, w: Manager,
                                          collisions: set<int>)
    requires AddrOk(m.discriminatePorts, m.info, m.addr) && TriedOk(m.hashing, m.info, m.triedTable)
    requires Numbering(m, ns, ts) && j <= |ts| && AllKnown(m, ns) && AllKnown(m, ts[..j])
    requires EntriesLoaded(m, w, ns, |ns|) && TriedLoaded(m, w, collisions, |ns|, 0)
    requires RandomOk(w.info, w.random) && forall k | k in w.info :: 0 <= k < w.idCount
    ensures AllKnown(m, ns + ts[..j])
    ensures var w' := LoadTried(w, Entries(m, ts[..j]));
            EntriesLoaded(m, w', ns + ts[..j], |ns|) && TriedLoaded(m, w', collisions, |ns|, j)
  {
    hide AddrOk, TriedOk, RandomOk, EntriesLoaded, TriedLoaded, LoadOneTried, LoadTried, Persist;
    if j == 0 {
      assert ns + ts[..0] == ns;
      assert Entries(m, ts[..0]) == [];
      LoadTriedNone(w);
    } else {
      LoadTriedFacts(m, ns, ts, j - 1, w, collisions);
      var es := Entries(m, ts[..j]);
      LoadTriedStep(w, es);
      assert es[..j - 1] == Entries(m, ts[..j - 1]);
      LoadTriedGrow(m, ns, ts, j - 1, LoadTried(w, es[..j - 1]), collisions);
    }
  }

  lemma LoadTriedNone(w: Manager)
    requires RandomOk(w.info, w.random) && forall k | k in w.info :: 0 <= k < w.idCount
    ensures LoadTried(w, []) == w
  {
  }

  // -------------------------------------------------------------------- slots

  lemma {:induction false} CellsOfFacts(t: map<Slot, int>, bucket: nat, n: nat)
    ensures var r := CellsOf(t, bucket, n);
            && (forall i, j | 0 <= i < j < |r| :: r[i] != r[j])
            && (forall p: nat | p < n && Slot(bucket, p) in t :: Slot(bucket, p) in r)
  {
    if n > 0 {
      CellsOfFacts(t, bucket, n - 1);
    }
  }

  lemma {:induction false} AllCellsFacts(t: map<Slot, int>, bucket: nat)
    ensures var r := AllCells(t, bucket);
            && (forall k | 0 <= k < |r| :: bucket <= r[k].bucket)
            && (forall i, j | 0 <= i < j < |r| :: r[i] != r[j])
            && (forall x | x in t && bucket <= x.bucket < NEW_BUCKET_COUNT && x.pos < BUCKET_SIZE :: x in r)
    decreases NEW_BUCKET_COUNT - bucket
  {
    if bucket < NEW_BUCKET_COUNT {
      AllCellsFacts(t, bucket + 1);
      CellsOfFacts(t, bucket, BUCKET_SIZE);
      var cells := CellsOf(t, bucket, BUCKET_SIZE);
      var r := AllCells(t, bucket);
      forall x | x in t && bucket <= x.bucket < NEW_BUCKET_COUNT && x.pos < BUCKET_SIZE ensures x in r {
        if x.bucket == bucket {
          assert Slot(bucket, x.pos) in cells;
        }
      }
    }
  }

  /** The cells handled so far hold their entries again, and reference counts agree with them. */
  ghost predicate SlotsLoaded(m: Manager, w: Manager, all: seq<int>, nn: nat, cells: set<Slot>)
    requires AllKnown(m, all)
  {
    && cells <= m.newTable.Keys && w.newTable.Keys == cells
    && (forall x | x in cells :: 0 <= w.newTable[x] < |all| && all[w.newTable[x]] == m.newTable[x])
    && (forall k: int :: k in w.info <==> 0 <= k < |all|)
    && (forall k | 0 <= k < |all| ::
          w.info[k] == Loaded(Persist(m.info[all[k]]), |SlotsOf(w.newTable, k)|, k >= nn, k))
  }

  /** Everything that loading slots leaves alone. */
  ghost predicate SameRest(w: Manager, w': Manager) {
    w' == w.(info := w'.info, newTable := w'.newTable)
  }

  /** An entry with an unread cell has fewer than eight cells read. */
  lemma RoomForOne(m: Manager, w: Manager, all: seq<int>, nn: nat, cells: set<Slot>, x: Slot, k: int)
    requires AllKnown(m, all) && SlotsLoaded(m, w, all, nn, cells)
    requires x in m.newTable && x !in cells && 0 <= k < |all| && all[k] == m.newTable[x]
    ensures |SlotsOf(w.newTable, k)| < |SlotsOf(m.newTable, all[k])|
  {
    hide Persist, Loaded;
    forall y | y in SlotsOf(w.newTable, k) ensures y in SlotsOf(m.newTable, all[k]) - {x} {
    }
    Sets.SubsetSize(SlotsOf(w.newTable, k), SlotsOf(m.newTable, all[k]) - {x});
    assert x in SlotsOf(m.newTable, all[k]);
  }

  lemma CellCounts(t: map<Slot, int>, x: Slot, k: int)
    requires x !in t
    ensures |SlotsOf(t[x := k], k)| == |SlotsOf(t, k)| + 1
    ensures forall i | i != k :: |SlotsOf(t[x := k], i)| == |SlotsOf(t, i)|
  {
    hide SlotsOf;
    SlotsAdd(t, x, k);
  }

  lemma SlotsGrow(m: Manager, w: Manager, all: seq<int>, nn: nat, cells: set<Slot>, x: Slot, k: int)
    requires AllKnown(m, all) && SlotsLoaded(m, w, all, nn, cells)
    requires x in m.newTable && x !in cells && 0 <= k < |all| && all[k] == m.newTable[x]
    ensures k in w.info && SlotsLoaded(m, PutNew(w, x, k), all, nn, cells + {x})
  {
    hide SlotsOf, Persist;
    var w' := PutNew(w, x, k);
    CellCounts(w.newTable, x, k);
    assert w'.info[k] == w.info[k].(refCount := w.info[k].refCount + 1);
  }

  lemma LoadSlotBack(m: Manager, w: Manager, all: seq<int>, nn: nat, cells: set<Slot>, x: Slot, k: int)
    requires Mid(m, {}, 0) && AllKnown(m, all) && SlotsLoaded(m, w, all, nn, cells) && w.hashing == m.hashing
    requires x in m.newTable && x !in cells && 0 <= k < |all| && all[k] == m.newTable[x]
    ensures k in w.info && LoadSlot(w, true, x.bucket, k) == PutNew(w, x, k)
  {
    RefsSplit(m);
    NewSlotAt(m, x);
    RoomForOne(m, w, all, nn, cells, x, k);
    hide Mid, SlotsOf, Hashing.NewSlot;
    assert w.info[k] == Loaded(Persist(m.info[all[k]]), |SlotsOf(w.newTable, k)|, k >= nn, k);
    assert m.info[all[k]].refCount == |SlotsOf(m.newTable, all[k])| <= NEW_BUCKETS_PER_ADDRESS;
  }

  lemma NewSlotAt(m: Manager, x: Slot)
    requires Mid(m, {}, 0) && x in m.newTable
    ensures m.newTable[x] in m.info && x.bucket < NEW_BUCKET_COUNT && x.pos < BUCKET_SIZE
    ensures x == m.hashing.NewSlot(x.bucket, m.info[m.newTable[x]].service)
    ensures !m.info[m.newTable[x]].inTried
  {
    hide RandomOk, AddrOk, TriedOk, RefsOk, NewIds, TriedIds;
  }

  ghost function Elements(cells: seq<Slot>): set<Slot> { set x | x in cells }

  lemma ElementsOfPrefix(cells: seq<Slot>, c: nat)
    requires c < |cells| && forall i, j | 0 <= i < j < |cells| :: cells[i] != cells[j]
    ensures cells[c] !in Elements(cells[..c]) && Elements(cells[..c + 1]) == Elements(cells[..c]) + {cells[c]}
  {
    assert cells[..c + 1] == cells[..c] + [cells[c]];
    forall x ensures x in Elements(cells[..c + 1]) <==> x in Elements(cells[..c]) + {cells[c]} {
    }
  }

  /** What loading the first c cells of a list of distinct cells gives. */
  lemma {:induction false} LoadSlotsFacts(m: Manager, w: Manager, ns: seq<int>, ts: seq<int>, cells: seq<Slot>, c: nat)
    requires Mid(m, {}, 0) && Numbering(m, ns, ts) && AllKnown(m, ns + ts) && w.hashing == m.hashing
    requires SlotsLoaded(m, w, ns + ts, |ns|, {})
    requires forall i, j | 0 <= i < j < |cells| :: cells[i] != cells[j]
    requires (forall k | 0 <= k < |cells| :: cells[k] in m.newTable && m.newTable[cells[k]] in ns) && c <= |cells|
    ensures var es := Pairs(m.newTable, cells[..c], ns);
            && (forall k | 0 <= k < |es| :: es[k].1 in w.info)
            && var w' := LoadSlots(w, true, es);
               SameRest(w, w') && SlotsLoaded(m, w', ns + ts, |ns|, Elements(cells[..c]))
  {
    hide Mid, Numbering, SlotsLoaded, LoadSlot, LoadSlots, IndexOf, SameRest, AllKnown, Elements;
    var es := Pairs(m.newTable, cells[..c], ns);
    LoadedIds(m, w, ns + ts, |ns|, {});
    forall k | 0 <= k < |es| ensures es[k].1 in w.info {
      IndexOfFound(ns, m.newTable[cells[k]]);
    }
    if c == 0 {
      ElementsOfNone(cells);
      assert es == [];
      LoadSlotsNone(w);
      SameRestRefl(w);
    } else {
      LoadSlotsFacts(m, w, ns, ts, cells, c - 1);
      assert es[..c - 1] == Pairs(m.newTable, cells[..c - 1], ns);
      LoadSlotsStep(w, es);
      var p := LoadSlots(w, true, es[..c - 1]);
      var x := cells[c - 1];
      ElementsOfPrefix(cells, c - 1);
      var k := IndexOf(ns, m.newTable[x]);
      IndexOfFound(ns, m.newTable[x]);
      assert (ns + ts)[k] == m.newTable[x];
      SameRestHashing(w, p);
      LoadSlotBack(m, p, ns + ts, |ns|, Elements(cells[..c - 1]), x, k);
      SlotsGrow(m, p, ns + ts, |ns|, Elements(cells[..c - 1]), x, k);
      SameRestPut(w, p, x, k);
    }
  }

  lemma ElementsOfNone(cells: seq<Slot>)
    ensures Elements(cells[..0]) == {}
  {
  }

  lemma SameRestRefl(w: Manager)
    ensures SameRest(w, w)
  {
  }

  lemma SameRestHashing(w: Manager, p: Manager)
    requires SameRest(w, p)
    ensures p.hashing == w.hashing
  {
  }

  lemma SameRestPut(w: Manager, p: Manager, x: Slot, k: int)
    requires SameRest(w, p) && k in p.info
    ensures SameRest(w, PutNew(p, x, k))
  {
  }

  lemma LoadedIds(m: Manager, w: Manager, all: seq<int>, nn: nat, cells: set<Slot>)
    requires AllKnown(m, all) && SlotsLoaded(m, w, all, nn, cells)
    ensures forall k: int :: k in w.info <==> 0 <= k < |all|
  {
    hide SlotsOf, Loaded, Persist;
  }

  lemma LoadSlotsNone(w: Manager)
    ensures LoadSlots(w, true, []) == w
  {
  }

  lemma LoadSlotsStep(w: Manager, es: seq<(nat, int)>)
    requires es != [] && forall k | 0 <= k < |es| :: es[k].1 in w.info
    ensures var n := |es| - 1;
            LoadSlots(w, true, es) == LoadSlot(LoadSlots(w, true, es[..n]), true, es[n].0, es[n].1)
  {
    hide LoadSlot;
  }

  lemma {:induction false} PruneNothing(m: Manager, pending: set<int>)
    requires RandomOk(m.info, m.random) && pending <= m.info.Keys
    requires forall id | id in m.info :: m.info[id].inTried || m.info[id].refCount != 0
    ensures Prune(m, pending) == m
    decreases |pending|
  {
    hide Delete;
    if pending != {} {
      PruneNothing(m, pending - {Sets.Least(pending)});
    }
  }

  // ------------------------------------------------------------- capacity

  lemma {:induction false} RowSize(xs: set<Slot>, bucket: nat, n: nat)
    requires forall x | x in xs :: x.bucket == bucket && x.pos < n
    ensures |xs| <= n
  {
    if n == 0 {
      if xs != {} {
        var x := Sets.AnyOf(xs);
      }
    } else {
      var rest := xs - {Slot(bucket, n - 1)};
      forall x | x in rest ensures x.bucket == bucket && x.pos < n - 1 {
        assert x == Slot(x.bucket, x.pos);
      }
      RowSize(rest, bucket, n - 1);
    }
  }

  lemma {:induction false} GridSize(xs: set<Slot>, buckets: nat, n: nat)
    requires forall x | x in xs :: x.bucket < buckets && x.pos < n
    ensures |xs| <= buckets * n
  {
    if buckets == 0 {
      if xs != {} {
        var x := Sets.AnyOf(xs);
      }
    } else {
      var row := set x | x in xs && x.bucket == buckets - 1;
      RowSize(row, buckets - 1, n);
      GridSize(xs - row, buckets - 1, n);
      assert xs == row + (xs - row);
      assert buckets * n == (buckets - 1) * n + n;
    }
  }

  /** Entries that each occupy some cell are no more than the cells. */
  lemma {:induction false} OwnersFit(t: map<Slot, int>, ids: set<int>)
    requires forall id | id in ids :: SlotsOf(t, id) != {}
    ensures |ids| <= |t.Keys|
  {
    if ids != {} {
      var id := Sets.AnyOf(ids);
      var x := Sets.AnyOf(SlotsOf(t, id));
      forall k | k in ids - {id} ensures SlotsOf(t - {x}, k) != {} {
        var y := Sets.AnyOf(SlotsOf(t, k));
        assert y in SlotsOf(t - {x}, k);
      }
      OwnersFit(t - {x}, ids - {id});
      assert (t - {x}).Keys == t.Keys - {x};
    }
  }

  lemma NewFits(m: Manager)
    requires Mid(m, {}, 0)
    ensures 0 <= m.nNew <= NEW_BUCKET_COUNT * BUCKET_SIZE
  {
    CountsOf(m);
    RefsSplit(m);
    forall x | x in m.newTable.Keys ensures x.bucket < NEW_BUCKET_COUNT && x.pos < BUCKET_SIZE {
      NewSlotAt(m, x);
    }
    hide Mid;
    GridSize(m.newTable.Keys, NEW_BUCKET_COUNT, BUCKET_SIZE);
    forall id | id in NewIds(m.info) ensures SlotsOf(m.newTable, id) != {} {
      assert id in m.info;
      assert m.info[id].inTried <==> m.info[id].refCount == 0;
      assert m.info[id].refCount == |SlotsOf(m.newTable, id)|;
    }
    OwnersFit(m.newTable, NewIds(m.info));
  }

  lemma TriedSlotAt(m: Manager, id: int)
    requires Mid(m, {}, 0) && id in m.info && m.info[id].inTried
    ensures m.hashing.TriedSlot(m.info[id].service) in SlotsOf(m.triedTable, id)
  {
    hide RandomOk, AddrOk, NewSlotsOk, RefsOk, NewIds, TriedIds;
  }

  lemma TriedInGrid(m: Manager, x: Slot)
    requires Mid(m, {}, 0) && x in m.triedTable
    ensures x.bucket < TRIED_BUCKET_COUNT && x.pos < BUCKET_SIZE
  {
    hide RandomOk, AddrOk, NewSlotsOk, RefsOk, NewIds, TriedIds;
  }

  lemma TriedFits(m: Manager)
    requires Mid(m, {}, 0)
    ensures 0 <= m.nTried <= TRIED_BUCKET_COUNT * BUCKET_SIZE
  {
    CountsOf(m);
    forall x | x in m.triedTable.Keys ensures x.bucket < TRIED_BUCKET_COUNT && x.pos < BUCKET_SIZE {
      TriedInGrid(m, x);
    }
    GridSize(m.triedTable.Keys, TRIED_BUCKET_COUNT, BUCKET_SIZE);
    forall id | id in TriedIds(m.info) ensures SlotsOf(m.triedTable, id) != {} {
      TriedSlotAt(m, id);
    }
    hide Mid;
    OwnersFit(m.triedTable, TriedIds(m.info));
  }

  // --------------------------------------------------------------- round trip

  /** The second manager is the first with entry all[k] known as k: nothing else that is saved differs. */
  ghost predicate Renumbered(m: Manager, m': Manager, all: seq<int>) {
    && AllKnown(m, all) && Distinct(all) && (forall id | id in m.info :: id in all)
    && m'.discriminatePorts == m.discriminatePorts && m'.hashing == m.hashing
    && m'.nNew == m.nNew && m'.nTried == m.nTried && m'.idCount == |all|
    && (forall k: int :: k in m'.info <==> 0 <= k < |all|)
    && (forall k | 0 <= k < |all| ::
          m'.info[k] == Loaded(Persist(m.info[all[k]]), m.info[all[k]].refCount, m.info[all[k]].inTried, k))
    && m'.random == Ident(|all|)
    && SameSlots(m.newTable, m'.newTable, all) && SameSlots(m.triedTable, m'.triedTable, all)
    && AddrOk(true, m'.info, m'.addr)
  }

  /** The same slots are occupied, by the same entries under their new numbers. */
  ghost predicate SameSlots(t: map<Slot, int>, t': map<Slot, int>, all: seq<int>) {
    t'.Keys == t.Keys && forall x | x in t :: 0 <= t'[x] < |all| && all[t'[x]] == t[x]
  }

  lemma TakeHeaderBack(m: Manager, order: seq<int>, sum: nat)
    requires AllKnown(m, order)
    requires 0 <= m.nNew <= NEW_BUCKET_COUNT * BUCKET_SIZE && 0 <= m.nTried <= TRIED_BUCKET_COUNT * BUCKET_SIZE
    ensures TakeHeader(Save(m, order, sum)) ==
              Some(Header(FORMAT_V3_BIP155, m.hashing, m.nNew, m.nTried, NEW_BUCKET_COUNT))
    ensures |Save(m, order, sum)| >= 6
    ensures Save(m, order, sum)[6..] ==
              EntryTokens(m, NewOrder(m, order)) + (EntryTokens(m, TriedOrder(m, order))
              + (BucketTokens(m.newTable, NewOrder(m, order), 0) + [SumToken(sum)]))
  {
    hide NewOrder, TriedOrder, BucketTokens;
  }

  lemma OwnersAreNew(m: Manager, ns: seq<int>, ts: seq<int>)
    requires Mid(m, {}, 0) && Numbering(m, ns, ts)
    ensures forall x | x in m.newTable :: m.newTable[x] in ns
  {
    hide Mid;
    forall x | x in m.newTable ensures m.newTable[x] in ns {
      NewSlotAt(m, x);
      var id := m.newTable[x];
      assert id in m.info && !m.info[id].inTried;
      assert id in ns + ts;
    }
  }

  lemma TakeBodyBack(m: Manager, ns: seq<int>, ts: seq<int>, sum: nat)
    requires AllKnown(m, ns) && AllKnown(m, ts) && |ns| == m.nNew && |ts| == m.nTried
    requires forall x | x in m.newTable :: m.newTable[x] in ns
    ensures TakeBody(EntryTokens(m, ns) + (EntryTokens(m, ts) + (BucketTokens(m.newTable, ns, 0) + [SumToken(sum)])),
                     Header(FORMAT_V3_BIP155, m.hashing, m.nNew, m.nTried, NEW_BUCKET_COUNT))
              == Some(Body(Entries(m, ns), Entries(m, ts), Pairs(m.newTable, AllCells(m.newTable, 0), ns), sum))
  {
    hide TakeEntries, TakeBuckets, BucketTokens, AllCells, EntryTokens, Entries, Pairs;
    var tail := BucketTokens(m.newTable, ns, 0) + [SumToken(sum)];
    TakeEntriesBack(m, ns, EntryTokens(m, ts) + tail);
    TakeEntriesBack(m, ts, tail);
    TakeBucketsBack(m.newTable, ns, 0, [SumToken(sum)]);
  }

  lemma StartTried(m: Manager, w: Manager, ns: seq<int>, collisions: set<int>)
    requires AllKnown(m, ns) && EntriesLoaded(m, w, ns, |ns|) && NoTables(m, w, collisions) && w.nNew == |ns|
    ensures TriedLoaded(m, w, collisions, |ns|, 0)
    ensures RandomOk(w.info, w.random) && forall k | k in w.info :: 0 <= k < w.idCount
  {
    hide AddrOk, Persist;
  }

  lemma StartSlots(m: Manager, w: Manager, all: seq<int>, nn: nat)
    requires AllKnown(m, all) && EntriesLoaded(m, w, all, nn) && w.newTable == map[]
    ensures SlotsLoaded(m, w, all, nn, {})
  {
    hide AddrOk, Persist;
    forall k: int ensures SlotsOf(w.newTable, k) == {} {
    }
  }

  /** With all cells loaded, an entry has as many as it had. */
  lemma SlotCountsBack(m: Manager, w: Manager, all: seq<int>, nn: nat, k: int)
    requires AllKnown(m, all) && Distinct(all) && SlotsLoaded(m, w, all, nn, m.newTable.Keys) && 0 <= k < |all|
    ensures SlotsOf(w.newTable, k) == SlotsOf(m.newTable, all[k])
  {
    hide Persist, Loaded;
    forall x ensures x in SlotsOf(w.newTable, k) <==> x in SlotsOf(m.newTable, all[k]) {
      if x in m.newTable {
        assert all[w.newTable[x]] == m.newTable[x];
      }
    }
  }

  lemma EntriesBack(m: Manager, w: Manager, ns: seq<int>, ts: seq<int>)
    requires Mid(m, {}, 0) && Numbering(m, ns, ts) && AllKnown(m, ns + ts)
    requires SlotsLoaded(m, w, ns + ts, |ns|, m.newTable.Keys)
    ensures forall k | 0 <= k < |ns + ts| ::
              var i := m.info[(ns + ts)[k]];
              k in w.info && w.info[k] == Loaded(Persist(i), i.refCount, i.inTried, k)
  {
    hide Mid, Persist, SlotsOf;
    RefsSplit(m);
    var all := ns + ts;
    forall k | 0 <= k < |all|
      ensures var i := m.info[all[k]]; k in w.info && w.info[k] == Loaded(Persist(i), i.refCount, i.inTried, k)
    {
      SlotCountsBack(m, w, all, |ns|, k);
      NumberOfTried(m, ns, ts, k);
    }
  }

  lemma CellsCover(m: Manager)
    requires Mid(m, {}, 0)
    ensures Elements(AllCells(m.newTable, 0)) == m.newTable.Keys
  {
    hide Mid;
    AllCellsFacts(m.newTable, 0);
    forall x ensures x in Elements(AllCells(m.newTable, 0)) <==> x in m.newTable.Keys {
      if x in m.newTable.Keys {
        NewSlotAt(m, x);
      }
    }
  }

  lemma NumberOfTried(m: Manager, ns: seq<int>, ts: seq<int>, k: int)
    requires Numbering(m, ns, ts) && 0 <= k < |ns + ts|
    ensures (ns + ts)[k] in m.info && (m.info[(ns + ts)[k]].inTried <==> k >= |ns|)
  {
    assert (ns + ts)[k] == if k < |ns| then ns[k] else ts[k - |ns|];
  }

  lemma TriedSlotsBack(m: Manager, w: Manager, ns: seq<int>, ts: seq<int>)
    requires TriedOk(m.hashing, m.info, m.triedTable) && TriedOk(w.hashing, w.info, w.triedTable)
    requires w.hashing == m.hashing && Numbering(m, ns, ts)
    requires AllKnown(m, ns + ts) && EntriesLoaded(m, w, ns + ts, |ns|)
    ensures SameSlots(m.triedTable, w.triedTable, ns + ts)
  {
    hide TriedOk, Numbering, EntriesLoaded, AllKnown;
    var all := ns + ts;
    forall x | x in m.triedTable
      ensures x in w.triedTable && 0 <= w.triedTable[x] < |all| && all[w.triedTable[x]] == m.triedTable[x]
    {
      TriedSlotLoaded(m, w, ns, ts, x);
    }
    forall x | x in w.triedTable ensures x in m.triedTable {
      TriedSlotSaved(m, w, ns, ts, x);
    }
  }

  lemma TriedSlotLoaded(m: Manager, w: Manager, ns: seq<int>, ts: seq<int>, x: Slot)
    requires TriedOk(m.hashing, m.info, m.triedTable) && TriedOk(w.hashing, w.info, w.triedTable)
    requires w.hashing == m.hashing && Numbering(m, ns, ts)
    requires AllKnown(m, ns + ts) && EntriesLoaded(m, w, ns + ts, |ns|) && x in m.triedTable
    ensures x in w.triedTable && 0 <= w.triedTable[x] < |ns + ts| && (ns + ts)[w.triedTable[x]] == m.triedTable[x]
  {
    hide AddrOk, Hashing.TriedSlot;
    var all := ns + ts;
    var id := m.triedTable[x];
    assert id in m.info && m.info[id].inTried && x == m.hashing.TriedSlot(m.info[id].service);
    assert id in all;
    var k :| 0 <= k < |all| && all[k] == id;
    NumberOfTried(m, ns, ts, k);
    assert k in w.info && w.info[k].inTried && w.info[k].service == m.info[id].service;
  }

  lemma TriedSlotSaved(m: Manager, w: Manager, ns: seq<int>, ts: seq<int>, x: Slot)
    requires TriedOk(m.hashing, m.info, m.triedTable) && TriedOk(w.hashing, w.info, w.triedTable)
    requires w.hashing == m.hashing && Numbering(m, ns, ts)
    requires AllKnown(m, ns + ts) && EntriesLoaded(m, w, ns + ts, |ns|) && x in w.triedTable
    ensures x in m.triedTable
  {
    hide AddrOk, Hashing.TriedSlot;
    var all := ns + ts;
    var k := w.triedTable[x];
    assert k in w.info && w.info[k].inTried && x == w.hashing.TriedSlot(w.info[k].service);
    assert w.info[k] == Loaded(Persist(m.info[all[k]]), 0, k >= |ns|, k);
    NumberOfTried(m, ns, ts, k);
    var id := all[k];
    assert id in m.info && m.info[id].inTried && w.info[k].service == m.info[id].service;
    assert m.hashing.TriedSlot(m.info[id].service) in m.triedTable;
  }

  lemma RenumberedAtEnd(m: Manager, w: Manager, w': Manager, ns: seq<int>, ts: seq<int>, collisions: set<int>)
    requires Mid(m, {}, 0) && Numbering(m, ns, ts) && |ns| == m.nNew && |ts| == m.nTried && AllKnown(m, ns + ts)
    requires EntriesLoaded(m, w, ns + ts, |ns|) && TriedLoaded(m, w, collisions, |ns|, |ts|)
    requires SameRest(w, w') && SlotsLoaded(m, w', ns + ts, |ns|, m.newTable.Keys)
    ensures Renumbered(m, w', ns + ts)
  {
    hide Mid, AddrOk, TriedOk, Persist, SlotsOf, Distinct;
    EntriesBack(m, w', ns, ts);
    PartsOf(m);
    TriedSlotsBack(m, w, ns, ts);
    forall k ensures k in w.info.Keys <==> k in w'.info.Keys {
    }
    assert w.info.Keys == w'.info.Keys;
    AddrFrame(true, w.info, w'.info, w.addr);
  }

  lemma PartsOf(m: Manager)
    requires Mid(m, {}, 0)
    ensures AddrOk(m.discriminatePorts, m.info, m.addr) && TriedOk(m.hashing, m.info, m.triedTable)
  {
    hide RandomOk, AddrOk, TriedOk, NewSlotsOk, RefsOk, NewIds, TriedIds;
  }

  lemma NothingToPrune(m: Manager, m': Manager, all: seq<int>)
    requires Mid(m, {}, 0) && Renumbered(m, m', all)
    ensures RandomOk(m'.info, m'.random) && Prune(m', m'.info.Keys) == m'
  {
    hide Mid, AddrOk, Persist, SameSlots, Prune, Distinct, SlotsOf;
    RefsSplit(m);
    forall id | id in m'.info ensures m'.info[id].inTried || m'.info[id].refCount != 0 {
      var o := all[id];
      assert o in m.info;
      assert m.info[o].inTried <==> m.info[o].refCount == 0;
    }
    PruneNothing(m', m'.info.Keys);
  }

  /** Rebuilding from the saved parts gives the renumbered manager. */
  lemma RebuildBack(m: Manager, ns: seq<int>, ts: seq<int>, collisions: set<int>, b: Body)
    requires Mid(m, {}, 0) && Numbering(m, ns, ts) && AllKnown(m, ns) && AllKnown(m, ts)
    requires |ns| == m.nNew && |ts| == m.nTried
    requires b.news == Entries(m, ns) && b.trieds == Entries(m, ts)
    requires b.slots == Pairs(m.newTable, AllCells(m.newTable, 0), ns)
    requires forall k | 0 <= k < |b.slots| :: 0 <= b.slots[k].1 < |b.news|
    ensures Renumbered(m, Rebuild(m.discriminatePorts, collisions, m.hashing, true, b), ns + ts)
    ensures Rebuild(m.discriminatePorts, collisions, m.hashing, true, b).collisions == collisions
  {
    hide Mid, AddrOk, TriedOk, RandomOk, EntriesLoaded, TriedLoaded, NoTables, SlotsLoaded, Entries, Pairs, AllCells,
         LoadNew, LoadTried, LoadSlots, Prune, Renumbered;
    PartsOf(m);
    FirstDistinct(ns, ts);
    LoadNewFacts(m, ns, |ns|, collisions);
    assert ns[..|ns|] == ns && ts[..|ts|] == ts;
    var w0 := LoadNew(m.discriminatePorts, m.hashing, collisions, b.news);
    StartTried(m, w0, ns, collisions);
    LoadTriedFacts(m, ns, ts, |ts|, w0, collisions);
    var w1 := LoadTried(w0, b.trieds);
    TriedLoadedRest(m, w1, collisions, |ns|, |ts|);
    StartSlots(m, w1, ns + ts, |ns|);
    var cells := AllCells(m.newTable, 0);
    OwnersAreNew(m, ns, ts);
    AllCellsFacts(m.newTable, 0);
    CellsCover(m);
    LoadSlotsFacts(m, w1, ns, ts, cells, |cells|);
    assert cells[..|cells|] == cells;
    var w2 := LoadSlots(w1, true, b.slots);
    RenumberedAtEnd(m, w1, w2, ns, ts, collisions);
    NothingToPrune(m, w2, ns + ts);
    assert Rebuild(m.discriminatePorts, collisions, m.hashing, true, b) == w2;
  }

  lemma TriedLoadedRest(m: Manager, w: Manager, collisions: set<int>, nn: nat, j: nat)
    requires TriedLoaded(m, w, collisions, nn, j)
    ensures w.hashing == m.hashing && w.newTable == map[] && w.collisions == collisions
  {
    hide TriedOk;
  }

  lemma FirstDistinct(ns: seq<int>, ts: seq<int>)
    requires Distinct(ns + ts)
    ensures Distinct(ns)
  {
    forall i, j | 0 <= i < j < |ns| ensures ns[i] != ns[j] {
      assert (ns + ts)[i] == ns[i] && (ns + ts)[j] == ns[j];
    }
  }

  /** Loading what was saved, under the same AS map, gives the same manager up to the numbering of the entries. */
  lemma LoadInvertsSave(m: Manager, order: seq<int>, sum: nat, collisions: set<int>)
    requires Mid(m, {}, 0) && Enumerates(order, m.info)
    ensures AllKnown(m, order)
    ensures var r := Load(Save(m, order, sum), m.discriminatePorts, collisions, h => h, sum);
            && r.Some? && r.value.collisions == collisions
            && Renumbered(m, r.value, NewOrder(m, order) + TriedOrder(m, order))
  {
    hide Mid, Enumerates, Numbering, NewOrder, TriedOrder, TakeHeader, TakeBody, Rebuild, Renumbered, Save,
         BucketTokens, EntryTokens, Entries, Pairs;
    Known(m, order);
    NumberingOf(m, order);
    var ns, ts := NewOrder(m, order), TriedOrder(m, order);
    NumberingCounts(m, ns, ts);
    NewFits(m);
    TriedFits(m);
    TakeHeaderBack(m, order, sum);
    OwnersAreNew(m, ns, ts);
    TakeBodyBack(m, ns, ts, sum);
    var h := Header(FORMAT_V3_BIP155, m.hashing, m.nNew, m.nTried, NEW_BUCKET_COUNT);
    TakeBodyRange(Save(m, order, sum)[6..], h);
    var b := TakeBody(Save(m, order, sum)[6..], h).value;
    RebuildBack(m, ns, ts, collisions, b);
  }

  // ------------------------------------------------- what loading gives back

  /** The loaded address index is keyed by the full service, so it is the one the manager uses exactly when
      ports are discriminated or no entry has a port. */
  lemma LoadedIndexExact(m: Manager, m': Manager, all: seq<int>)
    requires Renumbered(m, m', all)
    ensures AddrOk(m'.discriminatePorts, m'.info, m'.addr) <==>
              (m'.discriminatePorts || forall id | id in m'.info :: m'.info[id].service.port == 0)
  {
    hide SameSlots, Loaded, Persist, Distinct;
    if !m'.discriminatePorts {
      if forall id | id in m'.info :: m'.info[id].service.port == 0 {
        forall id | id in m'.info ensures Key(false, m'.info[id].service) == m'.info[id].service {
        }
        forall k | k in m'.addr ensures Key(false, m'.info[m'.addr[k]].service) == k {
          assert m'.addr[k] in m'.info && Key(true, m'.info[m'.addr[k]].service) == k;
        }
      }
      if AddrOk(false, m'.info, m'.addr) {
        forall id | id in m'.info ensures m'.info[id].service.port == 0 {
          var k := Key(false, m'.info[id].service);
          assert k in m'.addr && m'.addr[k] == id;
          assert Key(true, m'.info[m'.addr[k]].service) == k;
        }
      }
    }
  }

  /** Renumbering a set of ids keeps its size. */
  lemma {:induction false} CountBack(all: seq<int>, ids: set<int>, numbers: set<int>)
    requires Distinct(all) && forall id | id in ids :: id in all
    requires forall k :: k in numbers <==> 0 <= k < |all| && all[k] in ids
    ensures |numbers| == |ids|
  {
    if ids == {} {
      if numbers != {} {
        var k := Sets.AnyOf(numbers);
      }
    } else {
      var id := Sets.AnyOf(ids);
      assert id in all;
      var n :| 0 <= n < |all| && all[n] == id;
      forall k ensures k in numbers - {n} <==> 0 <= k < |all| && all[k] in ids - {id} {
      }
      CountBack(all, ids - {id}, numbers - {n});
    }
  }

  lemma CountsBack(m: Manager, m': Manager, all: seq<int>)
    requires Mid(m, {}, 0) && Renumbered(m, m', all)
    ensures m'.nNew == |NewIds(m'.info)| && m'.nTried == |TriedIds(m'.info)|
  {
    hide Mid, AddrOk, SameSlots, Persist, Distinct;
    CountsOf(m);
    forall k ensures k in NewIds(m'.info) <==> 0 <= k < |all| && all[k] in NewIds(m.info) {
    }
    CountBack(all, NewIds(m.info), NewIds(m'.info));
    forall k ensures k in TriedIds(m'.info) <==> 0 <= k < |all| && all[k] in TriedIds(m.info) {
    }
    CountBack(all, TriedIds(m.info), TriedIds(m'.info));
  }

  lemma TriedBack(m: Manager, m': Manager, all: seq<int>)
    requires Mid(m, {}, 0) && Renumbered(m, m', all)
    ensures TriedOk(m'.hashing, m'.info, m'.triedTable)
  {
    hide Mid, AddrOk, Hashing.TriedSlot;
    PartsOf(m);
    forall x | x in m'.triedTable
      ensures m'.triedTable[x] in m'.info && m'.info[m'.triedTable[x]].inTried
      ensures x == m'.hashing.TriedSlot(m'.info[m'.triedTable[x]].service)
    {
      var k := m'.triedTable[x];
      assert x in m.triedTable && all[k] == m.triedTable[x];
      TriedHit(m, x);
    }
    forall k | k in m'.info && m'.info[k].inTried
      ensures m'.hashing.TriedSlot(m'.info[k].service) in m'.triedTable
      ensures m'.triedTable[m'.hashing.TriedSlot(m'.info[k].service)] == k
    {
      var id := all[k];
      assert id in m.info && m.info[id].inTried;
      var x := m.hashing.TriedSlot(m.info[id].service);
      assert x in m.triedTable && m.triedTable[x] == id;
      assert all[m'.triedTable[x]] == id;
    }
  }

  lemma NewSlotsBack(m: Manager, m': Manager, all: seq<int>)
    requires Mid(m, {}, 0) && Renumbered(m, m', all)
    ensures NewSlotsOk(m'.hashing, m'.info, m'.newTable)
  {
    hide Mid, AddrOk, Hashing.NewSlot, Distinct;
    forall x | x in m'.newTable
      ensures && x.bucket < NEW_BUCKET_COUNT && m'.newTable[x] in m'.info && !m'.info[m'.newTable[x]].inTried
              && x == m'.hashing.NewSlot(x.bucket, m'.info[m'.newTable[x]].service)
    {
      assert x in m.newTable && all[m'.newTable[x]] == m.newTable[x];
      NewSlotAt(m, x);
    }
  }

  lemma RefsBack(m: Manager, m': Manager, all: seq<int>)
    requires Mid(m, {}, 0) && Renumbered(m, m', all)
    ensures RefsOk(m'.info, m'.newTable, {})
  {
    hide Mid, AddrOk, Persist;
    RefsSplit(m);
    forall k | k in m'.info
      ensures m'.info[k].refCount == |SlotsOf(m'.newTable, k)|
      ensures !m'.info[k].inTried ==> 1 <= m'.info[k].refCount <= NEW_BUCKETS_PER_ADDRESS
    {
      var id := all[k];
      assert id in m.info && m'.info[k].refCount == m.info[id].refCount;
      forall x ensures x in SlotsOf(m'.newTable, k) <==> x in SlotsOf(m.newTable, id) {
        if x in m.newTable {
          assert all[m'.newTable[x]] == m.newTable[x];
        }
      }
      assert SlotsOf(m'.newTable, k) == SlotsOf(m.newTable, id);
      assert m.info[id].inTried <==> m.info[id].refCount == 0;
    }
  }

  /** When the loaded address index is usable, the loaded manager satisfies the whole invariant. */
  lemma LoadedManagerInv(m: Manager, m': Manager, all: seq<int>)
    requires Mid(m, {}, 0) && Renumbered(m, m', all) && m'.collisions == {}
    requires m'.discriminatePorts || forall id | id in m'.info :: m'.info[id].service.port == 0
    ensures Inv(m')
  {
    hide AddrOk, TriedOk, NewSlotsOk, RefsOk, NewIds, TriedIds, SameSlots, Persist, Distinct;
    LoadedIndexExact(m, m', all);
    TriedBack(m, m', all);
    NewSlotsBack(m, m', all);
    RefsBack(m, m', all);
    CountsBack(m, m', all);
    assert NewIds(m'.info) - {} == NewIds(m'.info);
  }
}
