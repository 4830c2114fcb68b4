/**
 What the operations of the address manager keep, over every run.

 The invariant is the one the debug check Check_ spells out, but for its tests
 of times (module AddrManTimes).  It is stated between operations by `Inv` and
 in the middle of them by `Mid`, which allows a set of loose ids (known, but in
 neither table at the moment) and an offset in the count of new entries.
 */
module AddrManInvariant {
  import opened Options
  import opened AddrManModel
  import Sets

  /** The random vector and the positions stored in the entries are inverse to each other. */
  ghost predicate RandomOk(info: map<int, Info>, random: seq<int>) {
    && (forall id | id in info :: 0 <= info[id].randomPos < |random| && random[info[id].randomPos] == id)
    && (forall k | 0 <= k < |random| :: random[k] in info && info[random[k]].randomPos == k)
  }

  /** The address index and the keys of the entries are inverse to each other. */
  ghost predicate AddrOk(discriminatePorts: bool, info: map<int, Info>, addr: map<Service, int>) {
    && (forall id | id in info ::
          Key(discriminatePorts, info[id].service) in addr && addr[Key(discriminatePorts, info[id].service)] == id)
    && (forall k | k in addr :: addr[k] in info && Key(discriminatePorts, info[addr[k]].service) == k)
  }

  /** An entry is marked as tried exactly when its own slot of the tried table holds it. */
  ghost predicate TriedOk(h: Hashing, info: map<int, Info>, triedTable: map<Slot, int>) {
    && (forall x | x in triedTable ::
          triedTable[x] in info && info[triedTable[x]].inTried && x == h.TriedSlot(info[triedTable[x]].service))
    && (forall id | id in info && info[id].inTried ::
          h.TriedSlot(info[id].service) in triedTable && triedTable[h.TriedSlot(info[id].service)] == id)
  }

  /** Every occupied new slot holds an untried entry at its position in that bucket. */
  ghost predicate NewSlotsOk(h: Hashing, info: map<int, Info>, newTable: map<Slot, int>) {
    forall x | x in newTable ::
      && x.bucket < NEW_BUCKET_COUNT
      && newTable[x] in info
      && !info[newTable[x]].inTried
      && x == h.NewSlot(x.bucket, info[newTable[x]].service)
  }

  /** Reference counts are exact; a loose entry has none, a tried entry has none, any other has 1 to 8. */
  ghost predicate RefsOk(info: map<int, Info>, newTable: map<Slot, int>, loose: set<int>) {
    && (forall id | id in info :: info[id].refCount == |SlotsOf(newTable, id)|)
    && (forall id | id in info && !info[id].inTried && id !in loose ::
          1 <= info[id].refCount <= NEW_BUCKETS_PER_ADDRESS)
    && (forall id | id in loose :: id in info && !info[id].inTried && info[id].refCount == 0)
  }

  ghost function NewIds(info: map<int, Info>): set<int> {
    set id | id in info && !info[id].inTried
  }

  ghost function TriedIds(info: map<int, Info>): set<int> {
    set id | id in info && info[id].inTried
  }

  ghost predicate IdsOk(m: Manager) {
    && (forall id | id in m.info :: 0 <= id < m.idCount)
    && (forall id | id in m.collisions :: 0 <= id < m.idCount)
  }

  /** The invariant in the middle of an operation. */
  ghost predicate Mid(m: Manager, loose: set<int>, d: int) {
    && RandomOk(m.info, m.random)
    && AddrOk(m.discriminatePorts, m.info, m.addr)
    && TriedOk(m.hashing, m.info, m.triedTable)
    && NewSlotsOk(m.hashing, m.info, m.newTable)
    && RefsOk(m.info, m.newTable, loose)
    && m.nNew == |NewIds(m.info) - loose| + d
    && m.nTried == |TriedIds(m.info)|
    && IdsOk(m)
  }

  /** Every pending collision that is still known waits for an occupied tried slot. */
  ghost predicate CollisionsOk(m: Manager) {
    forall id | id in m.collisions && id in m.info :: m.hashing.TriedSlot(m.info[id].service) in m.triedTable
  }

  /** The invariant between operations. */
  ghost predicate Inv(m: Manager) {
    Mid(m, {}, 0) && CollisionsOk(m) && |m.collisions| <= SET_TRIED_COLLISION_SIZE
  }

  lemma MidUsable(m: Manager, loose: set<int>, d: int)
    requires Mid(m, loose, d)
    ensures Usable(m)
  {
  }

  // ------------------------------------------------------------------ frames

  lemma RandomFrame(info: map<int, Info>, info': map<int, Info>, random: seq<int>)
    requires RandomOk(info, random) && info.Keys == info'.Keys
    requires forall id | id in info :: info'[id].randomPos == info[id].randomPos
    ensures RandomOk(info', random)
  {
  }

  lemma AddrFrame(discriminatePorts: bool, info: map<int, Info>, info': map<int, Info>, addr: map<Service, int>)
    requires AddrOk(discriminatePorts, info, addr) && info.Keys == info'.Keys
    requires forall id | id in info :: info'[id].service == info[id].service
    ensures AddrOk(discriminatePorts, info', addr)
  {
  }

  lemma TriedFrame(h: Hashing, info: map<int, Info>, info': map<int, Info>, triedTable: map<Slot, int>)
    requires TriedOk(h, info, triedTable) && info.Keys == info'.Keys
    requires forall id | id in info :: info'[id].service == info[id].service
    requires forall id | id in info :: info'[id].inTried == info[id].inTried
    ensures TriedOk(h, info', triedTable)
    ensures NewIds(info') == NewIds(info) && TriedIds(info') == TriedIds(info)
  {
    forall id | id in info
      ensures id in NewIds(info') <==> id in NewIds(info)
      ensures id in TriedIds(info') <==> id in TriedIds(info)
    {
    }
    forall x | x in triedTable
      ensures && triedTable[x] in info'
              && info'[triedTable[x]].inTried
              && x == h.TriedSlot(info'[triedTable[x]].service)
    {
      var id := triedTable[x];
      assert id in info && info'[id].service == info[id].service;
    }
  }

  lemma NewSlotsFrame(h: Hashing, info: map<int, Info>, info': map<int, Info>, newTable: map<Slot, int>)
    requires NewSlotsOk(h, info, newTable) && info.Keys == info'.Keys
    requires forall id | id in info :: info'[id].service == info[id].service
    requires forall id | id in info :: info'[id].inTried == info[id].inTried
    ensures NewSlotsOk(h, info', newTable)
  {
    forall x | x in newTable
      ensures && x.bucket < NEW_BUCKET_COUNT
              && newTable[x] in info'
              && !info'[newTable[x]].inTried
              && x == h.NewSlot(x.bucket, info'[newTable[x]].service)
    {
      var id := newTable[x];
      assert id in info && info'[id].service == info[id].service;
      assert info'[id].inTried == info[id].inTried;
    }
  }

  lemma RefsFrame(info: map<int, Info>, info': map<int, Info>, newTable: map<Slot, int>, loose: set<int>)
    requires RefsOk(info, newTable, loose) && info.Keys == info'.Keys
    requires forall id | id in info :: info'[id].refCount == info[id].refCount
    requires forall id | id in info :: info'[id].inTried == info[id].inTried
    ensures RefsOk(info', newTable, loose)
  {
    hide SlotsOf;
  }

  /** Two entry tables that differ at most in what the indexes and tables do not depend on. */
  ghost predicate SameCore(info: map<int, Info>, info': map<int, Info>) {
    && info.Keys == info'.Keys
    && (forall id | id in info :: info'[id].service == info[id].service)
    && (forall id | id in info :: info'[id].refCount == info[id].refCount)
    && (forall id | id in info :: info'[id].inTried == info[id].inTried)
  }

  lemma CoreFrame(m: Manager, m': Manager, loose: set<int>, d: int)
    requires Mid(m, loose, d)
    requires SameCore(m.info, m'.info) && RandomOk(m'.info, m'.random)
    requires m' == m.(info := m'.info, random := m'.random, lastGood := m'.lastGood)
    ensures Mid(m', loose, d)
  {
    hide RandomOk, AddrOk, TriedOk, NewSlotsOk, RefsOk, NewIds, TriedIds;
    AddrFrame(m.discriminatePorts, m.info, m'.info, m.addr);
    TriedFrame(m.hashing, m.info, m'.info, m.triedTable);
    NewSlotsFrame(m.hashing, m.info, m'.info, m.newTable);
    RefsFrame(m.info, m'.info, m.newTable, loose);
  }

  lemma TouchInfo(m: Manager, id: int, i: Info, loose: set<int>, d: int)
    requires Mid(m, loose, d) && id in m.info
    requires i.service == m.info[id].service && i.refCount == m.info[id].refCount
    requires i.inTried == m.info[id].inTried && i.randomPos == m.info[id].randomPos
    ensures Mid(SetInfo(m, id, i), loose, d)
  {
    hide RandomOk, AddrOk, TriedOk, NewSlotsOk, RefsOk, NewIds, TriedIds;
    var m' := SetInfo(m, id, i);
    RandomFrame(m.info, m'.info, m.random);
    CoreFrame(m, m', loose, d);
  }

  // -------------------------------------------------------- the random vector

  lemma SwapRandomOk(m: Manager, i: nat, j: nat)
    requires RandomOk(m.info, m.random) && i < |m.random| && j < |m.random|
    ensures RandomIdsKnown(m)
    ensures SameCore(m.info, SwapRandom(m, i, j).info)
    ensures RandomOk(SwapRandom(m, i, j).info, SwapRandom(m, i, j).random)
  {
    if i != j {
      var a, b := m.random[i], m.random[j];
      assert a != b;
      var w := SwapRandom(m, i, j);
      assert w.info[a] == m.info[a].(randomPos := j);
      assert w.info[b] == m.info[b].(randomPos := i);
    }
  }

  lemma SwapRandomKeeps(m: Manager, i: nat, j: nat, loose: set<int>, d: int)
    requires Mid(m, loose, d) && i < |m.random| && j < |m.random|
    ensures RandomIdsKnown(m) && Mid(SwapRandom(m, i, j), loose, d)
    ensures SameCore(m.info, SwapRandom(m, i, j).info)
  {
    hide AddrOk, TriedOk, NewSlotsOk, RefsOk, NewIds, TriedIds;
    SwapRandomOk(m, i, j);
    hide RandomOk, SameCore;
    CoreFrame(m, SwapRandom(m, i, j), loose, d);
  }

  lemma PopRandomOk(info: map<int, Info>, random: seq<int>, id: int)
    requires RandomOk(info, random) && id in info && info[id].randomPos == |random| - 1
    ensures RandomOk(info - {id}, random[..|random| - 1])
  {
  }

  lemma PushRandomOk(info: map<int, Info>, random: seq<int>, id: int, i: Info)
    requires RandomOk(info, random) && id !in info && i.randomPos == |random|
    ensures RandomOk(info[id := i], random + [id])
  {
  }

  // ------------------------------------------------------- creating, deleting

  /** An id that is not in the table of entries. */
  lemma FreshId(m: Manager, loose: set<int>, d: int, id: int)
    requires Mid(m, loose, d) && id !in m.info
    ensures id !in loose && SlotsOf(m.newTable, id) == {} && id !in m.triedTable.Values && id !in m.addr.Values
  {
  }

  lemma InsertAddr(discriminatePorts: bool, info: map<int, Info>, addr: map<Service, int>, id: int, i: Info)
    requires AddrOk(discriminatePorts, info, addr) && id !in info
    requires Key(discriminatePorts, i.service) !in addr
    ensures AddrOk(discriminatePorts, info[id := i], addr[Key(discriminatePorts, i.service) := id])
  {
  }

  lemma InsertTables(h: Hashing, info: map<int, Info>, triedTable: map<Slot, int>, newTable: map<Slot, int>, id: int,
                     i: Info)
    requires TriedOk(h, info, triedTable) && NewSlotsOk(h, info, newTable) && id !in info && !i.inTried
    ensures TriedOk(h, info[id := i], triedTable) && NewSlotsOk(h, info[id := i], newTable)
  {
  }

  lemma InsertRefs(info: map<int, Info>, newTable: map<Slot, int>, loose: set<int>, id: int, i: Info)
    requires RefsOk(info, newTable, loose) && id !in info && !i.inTried && i.refCount == 0
    requires SlotsOf(newTable, id) == {}
    ensures RefsOk(info[id := i], newTable, loose + {id})
    ensures NewIds(info[id := i]) - (loose + {id}) == NewIds(info) - loose
    ensures TriedIds(info[id := i]) == TriedIds(info)
  {
    hide SlotsOf;
  }

  lemma CreateKeeps(m: Manager, a: Address, source: NetAddr, loose: set<int>, d: int)
    requires Mid(m, loose, d)
    requires Key(m.discriminatePorts, a.service) !in m.addr
    ensures Mid(Create(m, a, source), loose + {m.idCount}, d)
  {
    hide RandomOk, AddrOk, TriedOk, NewSlotsOk, RefsOk, NewIds, TriedIds, SlotsOf;
    var c := Create(m, a, source);
    var id := m.idCount;
    FreshId(m, loose, d, id);
    PushRandomOk(m.info, m.random, id, c.info[id]);
    InsertAddr(m.discriminatePorts, m.info, m.addr, id, c.info[id]);
    InsertTables(m.hashing, m.info, m.triedTable, m.newTable, id, c.info[id]);
    InsertRefs(m.info, m.newTable, loose, id, c.info[id]);
  }

  lemma RemoveAddr(discriminatePorts: bool, info: map<int, Info>, addr: map<Service, int>, id: int)
    requires AddrOk(discriminatePorts, info, addr) && id in info
    ensures AddrOk(discriminatePorts, info - {id}, addr - {Key(discriminatePorts, info[id].service)})
  {
  }

  lemma RemoveTables(h: Hashing, info: map<int, Info>, triedTable: map<Slot, int>, newTable: map<Slot, int>, id: int)
    requires TriedOk(h, info, triedTable) && NewSlotsOk(h, info, newTable) && id in info && !info[id].inTried
    requires SlotsOf(newTable, id) == {}
    ensures TriedOk(h, info - {id}, triedTable) && NewSlotsOk(h, info - {id}, newTable)
  {
    forall x | x in newTable ensures newTable[x] != id {
      assert x !in SlotsOf(newTable, id);
    }
  }

  lemma RemoveRefs(info: map<int, Info>, newTable: map<Slot, int>, loose: set<int>, id: int)
    requires RefsOk(info, newTable, loose) && id in loose
    ensures SlotsOf(newTable, id) == {}
    ensures RefsOk(info - {id}, newTable, loose - {id})
    ensures NewIds(info - {id}) - (loose - {id}) == NewIds(info) - loose
    ensures TriedIds(info - {id}) == TriedIds(info)
  {
    hide SlotsOf;
  }

  lemma DeleteKeeps(m: Manager, id: int, loose: set<int>, d: int)
    requires Mid(m, loose, d) && id in loose
    ensures id in m.info && 0 <= m.info[id].randomPos < |m.random| && RandomIdsKnown(m)
    ensures Mid(Delete(m, id), loose - {id}, d - 1)
  {
    hide RandomOk, AddrOk, TriedOk, NewSlotsOk, RefsOk, NewIds, TriedIds, SlotsOf, SameCore;
    LooseKnown(m, loose, d, id);
    var w := SwapRandom(m, m.info[id].randomPos, |m.random| - 1);
    SwapToLast(m, id);
    SwapRandomKeeps(m, m.info[id].randomPos, |m.random| - 1, loose, d);
    PopRandomOk(w.info, w.random, id);
    RemoveAddr(m.discriminatePorts, w.info, w.addr, id);
    RemoveRefs(w.info, w.newTable, loose, id);
    RemoveTables(m.hashing, w.info, w.triedTable, w.newTable, id);
  }

  lemma LooseKnown(m: Manager, loose: set<int>, d: int, id: int)
    requires Mid(m, loose, d) && id in loose
    ensures id in m.info && !m.info[id].inTried && m.info[id].refCount == 0
    ensures 0 <= m.info[id].randomPos < |m.random| && RandomIdsKnown(m)
  {
    hide AddrOk, TriedOk, NewSlotsOk, NewIds, TriedIds, SlotsOf;
  }

  lemma SwapToLast(m: Manager, id: int)
    requires RandomOk(m.info, m.random) && id in m.info
    ensures 0 <= m.info[id].randomPos < |m.random| && RandomIdsKnown(m)
    ensures var w := SwapRandom(m, m.info[id].randomPos, |m.random| - 1);
            && w.info.Keys == m.info.Keys
            && w.info[id] == m.info[id].(randomPos := |m.random| - 1)
  {
    assert m.random[m.info[id].randomPos] == id;
    SwapRandomOk(m, m.info[id].randomPos, |m.random| - 1);
  }

  // ------------------------------------------------------------ the new table

  lemma SlotsRemove(t: map<Slot, int>, x: Slot)
    requires x in t
    ensures x in SlotsOf(t, t[x]) && SlotsOf(t - {x}, t[x]) == SlotsOf(t, t[x]) - {x}
    ensures forall k | k != t[x] :: SlotsOf(t - {x}, k) == SlotsOf(t, k)
  {
    forall k | k != t[x] ensures SlotsOf(t - {x}, k) == SlotsOf(t, k) {
      forall y ensures y in SlotsOf(t - {x}, k) <==> y in SlotsOf(t, k) {
      }
    }
  }

  lemma SlotsAdd(t: map<Slot, int>, x: Slot, id: int)
    requires x !in t
    ensures x !in SlotsOf(t, id) && SlotsOf(t[x := id], id) == SlotsOf(t, id) + {x}
    ensures forall k | k != id :: SlotsOf(t[x := id], k) == SlotsOf(t, k)
  {
    forall k | k != id ensures SlotsOf(t[x := id], k) == SlotsOf(t, k) {
      forall y ensures y in SlotsOf(t[x := id], k) <==> y in SlotsOf(t, k) {
      }
    }
  }

  lemma SlotsRemoveAll(t: map<Slot, int>, id: int)
    ensures SlotsOf(t - SlotsOf(t, id), id) == {}
    ensures forall k | k != id :: SlotsOf(t - SlotsOf(t, id), k) == SlotsOf(t, k)
  {
    var t' := t - SlotsOf(t, id);
    forall k | k != id ensures SlotsOf(t', k) == SlotsOf(t, k) {
      forall y ensures y in SlotsOf(t', k) <==> y in SlotsOf(t, k) {
      }
    }
  }

  /** The parts of the invariant that a change of one reference count and of the new table leaves alone. */
  lemma RefCountFrame(m: Manager, id: int, n: int, loose: set<int>, d: int)
    requires Mid(m, loose, d) && id in m.info
    ensures var info' := m.info[id := m.info[id].(refCount := n)];
            && RandomOk(info', m.random)
            && AddrOk(m.discriminatePorts, info', m.addr)
            && TriedOk(m.hashing, info', m.triedTable)
            && NewSlotsOk(m.hashing, info', m.newTable)
            && NewIds(info') == NewIds(m.info) && TriedIds(info') == TriedIds(m.info)
            && info'.Keys == m.info.Keys
  {
    hide RandomOk, AddrOk, TriedOk, NewSlotsOk, RefsOk, NewIds, TriedIds;
    var info' := m.info[id := m.info[id].(refCount := n)];
    RandomFrame(m.info, info', m.random);
    AddrFrame(m.discriminatePorts, m.info, info', m.addr);
    TriedFrame(m.hashing, m.info, info', m.triedTable);
    NewSlotsFrame(m.hashing, m.info, info', m.newTable);
  }

  lemma FewerNewSlots(h: Hashing, info: map<int, Info>, t: map<Slot, int>, xs: set<Slot>)
    requires NewSlotsOk(h, info, t)
    ensures NewSlotsOk(h, info, t - xs)
  {
  }

  lemma UnslotRefs(info: map<int, Info>, t: map<Slot, int>, loose: set<int>, x: Slot)
    requires RefsOk(info, t, loose) && x in t && t[x] in info && !info[t[x]].inTried
    ensures var id := t[x];
            var n := info[id].refCount - 1;
            && id !in loose && n >= 0
            && RefsOk(info[id := info[id].(refCount := n)], t - {x}, if n == 0 then loose + {id} else loose)
  {
    SlotsRemove(t, x);
    var id := t[x];
    assert |SlotsOf(t - {x}, id)| == |SlotsOf(t, id)| - 1;
    hide SlotsOf;
  }

  lemma UnslotKeeps(m: Manager, x: Slot, loose: set<int>, d: int)
    requires Mid(m, loose, d) && x in m.newTable
    ensures var id := m.newTable[x];
            && id in m.info && id !in loose && m.info[id].refCount >= 1
            && var last := m.info[id].refCount == 1;
               Mid(Unslot(m, x), if last then loose + {id} else loose, if last then d + 1 else d)
  {
    hide RandomOk, AddrOk, TriedOk, RefsOk, NewIds, TriedIds;
    var id := m.newTable[x];
    assert id in m.info && !m.info[id].inTried;
    hide NewSlotsOk;
    var last := m.info[id].refCount == 1;
    var c := Unslot(m, x);
    RefCountFrame(m, id, m.info[id].refCount - 1, loose, d);
    FewerNewSlots(m.hashing, c.info, m.newTable, {x});
    UnslotRefs(m.info, m.newTable, loose, x);
    if last {
      NewIdCount(m.info, loose, id);
    }
  }

  lemma NewIdCount(info: map<int, Info>, loose: set<int>, id: int)
    requires id in info && !info[id].inTried && id !in loose
    ensures |NewIds(info) - (loose + {id})| == |NewIds(info) - loose| - 1
  {
    assert id in NewIds(info) - loose;
    assert NewIds(info) - (loose + {id}) == (NewIds(info) - loose) - {id};
  }

  lemma ClearNewKeeps(m: Manager, x: Slot, loose: set<int>, d: int)
    requires Mid(m, loose, d)
    ensures Usable(m) && Mid(ClearNew(m, x), loose, d)
    ensures x !in ClearNew(m, x).newTable
  {
    MidUsable(m, loose, d);
    hide RandomOk, AddrOk, TriedOk, NewSlotsOk, RefsOk, NewIds, TriedIds, IdsOk, Mid;
    if x in m.newTable {
      var id := m.newTable[x];
      UnslotKeeps(m, x, loose, d);
      var u := Unslot(m, x);
      if u.info[id].refCount == 0 {
        DeleteKeeps(u, id, loose + {id}, d + 1);
        assert loose + {id} - {id} == loose;
      }
    }
  }

  lemma PutNewRefs(info: map<int, Info>, t: map<Slot, int>, loose: set<int>, x: Slot, id: int)
    requires RefsOk(info, t, loose) && x !in t && id in info && !info[id].inTried
    requires info[id].refCount < NEW_BUCKETS_PER_ADDRESS
    ensures RefsOk(info[id := info[id].(refCount := info[id].refCount + 1)], t[x := id], loose - {id})
  {
    SlotsAdd(t, x, id);
    assert |SlotsOf(t[x := id], id)| == |SlotsOf(t, id)| + 1;
    hide SlotsOf;
  }

  lemma PutNewKeeps(m: Manager, x: Slot, id: int, loose: set<int>, d: int)
    requires Mid(m, loose, d) && id in m.info && !m.info[id].inTried
    requires x !in m.newTable && x.bucket < NEW_BUCKET_COUNT && x == m.hashing.NewSlot(x.bucket, m.info[id].service)
    requires m.info[id].refCount < NEW_BUCKETS_PER_ADDRESS
    ensures Mid(PutNew(m, x, id), loose - {id}, if id in loose then d - 1 else d)
  {
    hide RandomOk, AddrOk, TriedOk, NewSlotsOk, RefsOk, NewIds, TriedIds;
    var c := PutNew(m, x, id);
    RefCountFrame(m, id, m.info[id].refCount + 1, loose, d);
    OneMoreNewSlot(m.hashing, c.info, m.newTable, x, id);
    PutNewRefs(m.info, m.newTable, loose, x, id);
    if id in loose {
      NewIdCount(m.info, loose - {id}, id);
      assert loose - {id} + {id} == loose;
    } else {
      assert loose - {id} == loose;
    }
  }

  lemma OneMoreNewSlot(h: Hashing, info: map<int, Info>, t: map<Slot, int>, x: Slot, id: int)
    requires NewSlotsOk(h, info, t) && id in info && !info[id].inTried
    requires x.bucket < NEW_BUCKET_COUNT && x == h.NewSlot(x.bucket, info[id].service)
    ensures NewSlotsOk(h, info, t[x := id])
  {
  }

  lemma RemoveAllRefs(info: map<int, Info>, t: map<Slot, int>, loose: set<int>, id: int)
    requires RefsOk(info, t, loose) && id in info && !info[id].inTried
    ensures info[id].refCount == |SlotsOf(t, id)|
    ensures RefsOk(info[id := info[id].(refCount := 0)], t - SlotsOf(t, id), loose + {id})
  {
    SlotsRemoveAll(t, id);
    hide SlotsOf;
  }

  lemma RemoveFromNewKeeps(m: Manager, id: int, loose: set<int>, d: int)
    requires Mid(m, loose, d) && id in m.info && !m.info[id].inTried && id !in loose
    ensures RemoveFromNew(m, id).info[id].refCount == 0
    ensures Mid(RemoveFromNew(m, id), loose + {id}, d + 1)
  {
    hide RandomOk, AddrOk, TriedOk, NewSlotsOk, RefsOk, NewIds, TriedIds, SlotsOf;
    var c := RemoveFromNew(m, id);
    RemoveAllRefs(m.info, m.newTable, loose, id);
    RefCountFrame(m, id, 0, loose, d);
    FewerNewSlots(m.hashing, c.info, m.newTable, SlotsOf(m.newTable, id));
    NewIdCount(m.info, loose, id);
  }

  // ---------------------------------------------------------- the tried table

  lemma TriedFrameRest(m: Manager, id: int, inTried: bool, loose: set<int>, d: int)
    requires Mid(m, loose, d) && id in m.info
    requires SlotsOf(m.newTable, id) == {}
    ensures var info' := m.info[id := m.info[id].(inTried := inTried)];
            && RandomOk(info', m.random)
            && AddrOk(m.discriminatePorts, info', m.addr)
            && NewSlotsOk(m.hashing, info', m.newTable)
            && info'.Keys == m.info.Keys
  {
    hide RandomOk, AddrOk, TriedOk, RefsOk, NewIds, TriedIds;
    var info' := m.info[id := m.info[id].(inTried := inTried)];
    RandomFrame(m.info, info', m.random);
    AddrFrame(m.discriminatePorts, m.info, info', m.addr);
    forall x | x in m.newTable ensures m.newTable[x] != id {
      assert x !in SlotsOf(m.newTable, id);
    }
  }

  lemma TriedHasNoSlots(h: Hashing, info: map<int, Info>, t: map<Slot, int>, id: int)
    requires NewSlotsOk(h, info, t) && id in info && info[id].inTried
    ensures SlotsOf(t, id) == {}
  {
  }

  lemma LooseHasNoSlots(info: map<int, Info>, t: map<Slot, int>, loose: set<int>, id: int)
    requires RefsOk(info, t, loose) && id in loose
    ensures SlotsOf(t, id) == {}
  {
    hide SlotsOf;
  }

  lemma UntryTable(h: Hashing, info: map<int, Info>, t: map<Slot, int>, x: Slot)
    requires TriedOk(h, info, t) && x in t
    ensures t[x] in info && info[t[x]].inTried
    ensures TriedOk(h, info[t[x] := info[t[x]].(inTried := false)], t - {x})
  {
  }

  lemma UntryRefs(info: map<int, Info>, t: map<Slot, int>, loose: set<int>, id: int)
    requires RefsOk(info, t, loose) && id in info && info[id].inTried && SlotsOf(t, id) == {}
    ensures id !in loose && info[id].refCount == 0
    ensures RefsOk(info[id := info[id].(inTried := false)], t, loose + {id})
  {
    hide SlotsOf;
  }

  lemma UntryCounts(info: map<int, Info>, loose: set<int>, id: int)
    requires id in info && info[id].inTried && id !in loose
    ensures var info' := info[id := info[id].(inTried := false)];
            && NewIds(info') - (loose + {id}) == NewIds(info) - loose
            && |TriedIds(info')| == |TriedIds(info)| - 1
  {
    var info' := info[id := info[id].(inTried := false)];
    forall k ensures k in NewIds(info') - (loose + {id}) <==> k in NewIds(info) - loose {
    }
    assert id in TriedIds(info);
    forall k ensures k in TriedIds(info') <==> k in TriedIds(info) - {id} {
    }
    assert TriedIds(info') == TriedIds(info) - {id};
  }

  lemma UntryKeeps(m: Manager, x: Slot, loose: set<int>, d: int)
    requires Mid(m, loose, d) && x in m.triedTable
    ensures m.triedTable[x] in m.info && m.triedTable[x] !in loose
    ensures Mid(Untry(m, x), loose + {m.triedTable[x]}, d)
  {
    hide RandomOk, AddrOk, TriedOk, NewSlotsOk, RefsOk, NewIds, TriedIds, SlotsOf;
    var id := m.triedTable[x];
    UntryTable(m.hashing, m.info, m.triedTable, x);
    TriedHasNoSlots(m.hashing, m.info, m.newTable, id);
    TriedFrameRest(m, id, false, loose, d);
    UntryRefs(m.info, m.newTable, loose, id);
    UntryCounts(m.info, loose, id);
  }

  lemma PutTriedTable(h: Hashing, info: map<int, Info>, t: map<Slot, int>, id: int)
    requires TriedOk(h, info, t) && id in info && !info[id].inTried && h.TriedSlot(info[id].service) !in t
    ensures TriedOk(h, info[id := info[id].(inTried := true)], t[h.TriedSlot(info[id].service) := id])
  {
  }

  lemma PutTriedRefs(info: map<int, Info>, t: map<Slot, int>, loose: set<int>, id: int)
    requires RefsOk(info, t, loose) && id in loose
    ensures RefsOk(info[id := info[id].(inTried := true)], t, loose - {id})
  {
    hide SlotsOf;
  }

  lemma PutTriedCounts(info: map<int, Info>, loose: set<int>, id: int)
    requires id in info && !info[id].inTried && id in loose
    ensures var info' := info[id := info[id].(inTried := true)];
            && NewIds(info') - (loose - {id}) == NewIds(info) - loose
            && |TriedIds(info')| == |TriedIds(info)| + 1
  {
    var info' := info[id := info[id].(inTried := true)];
    forall k ensures k in NewIds(info') - (loose - {id}) <==> k in NewIds(info) - loose {
    }
    forall k ensures k in TriedIds(info') <==> k in TriedIds(info) + {id} {
    }
    assert TriedIds(info') == TriedIds(info) + {id};
  }

  lemma PutTriedKeeps(m: Manager, id: int, loose: set<int>, d: int)
    requires Mid(m, loose, d) && id in loose
    ensures id in m.info
    ensures m.hashing.TriedSlot(m.info[id].service) !in m.triedTable ==>
              Mid(PutTried(m, m.hashing.TriedSlot(m.info[id].service), id), loose - {id}, d)
  {
    hide RandomOk, AddrOk, TriedOk, NewSlotsOk, RefsOk, NewIds, TriedIds, SlotsOf;
    LooseKnown(m, loose, d, id);
    if m.hashing.TriedSlot(m.info[id].service) !in m.triedTable {
      PutTriedTable(m.hashing, m.info, m.triedTable, id);
      LooseHasNoSlots(m.info, m.newTable, loose, id);
      TriedFrameRest(m, id, true, loose, d);
      PutTriedRefs(m.info, m.newTable, loose, id);
      PutTriedCounts(m.info, loose, id);
    }
  }

  // --------------------------------------------------------------- composites

  /** Ids keep their service, and ids that were not known are new. */
  ghost predicate Later(m: Manager, m': Manager) {
    && m'.discriminatePorts == m.discriminatePorts && m'.hashing == m.hashing
    && m.idCount <= m'.idCount
    && (forall id | id in m'.info ::
          (id in m.info && m'.info[id].service == m.info[id].service) || m.idCount <= id)
  }

  lemma LaterTrans(a: Manager, b: Manager, c: Manager)
    requires Later(a, b) && Later(b, c)
    ensures Later(a, c)
  {
  }

  lemma SwapRandomEffect(m: Manager, i: nat, j: nat)
    requires i < |m.random| && j < |m.random| && RandomIdsKnown(m)
    ensures var w := SwapRandom(m, i, j);
            && w == m.(info := w.info, random := w.random) && |w.random| == |m.random|
            && w.info.Keys == m.info.Keys
            && (forall k | k in m.info :: w.info[k] == m.info[k].(randomPos := w.info[k].randomPos))
  {
  }

  lemma DeleteEffect(m: Manager, id: int)
    requires Usable(m) && id in m.info
    ensures var c := Delete(m, id);
            && c == m.(info := c.info, addr := c.addr, random := c.random, nNew := c.nNew)
            && c.info.Keys == m.info.Keys - {id}
            && (forall k | k in c.info :: c.info[k] == m.info[k].(randomPos := c.info[k].randomPos))
  {
    hide SwapRandom;
    SwapRandomEffect(m, m.info[id].randomPos, |m.random| - 1);
  }

  lemma ClearNewLater(m: Manager, x: Slot)
    requires Usable(m)
    ensures var c := ClearNew(m, x);
            && Later(m, c) && c.triedTable == m.triedTable && c.collisions == m.collisions
            && c.newTable == m.newTable - {x}
            && (forall k | k in m.info && k !in c.info :: x in m.newTable && k == m.newTable[x])
            && (forall k | k in c.info && !(x in m.newTable && k == m.newTable[x]) ::
                  c.info[k] == m.info[k].(randomPos := c.info[k].randomPos))
  {
    if x in m.newTable {
      var id := m.newTable[x];
      var u := Unslot(m, x);
      assert Usable(u);
      if u.info[id].refCount == 0 {
        DeleteEffect(u, id);
        hide Delete;
      }
    }
  }

  lemma EvictKeeps(m: Manager, x: Slot, loose: set<int>, d: int)
    requires Mid(m, loose, d) && x in m.triedTable
    ensures Usable(m) && m.triedTable[x] in Evict(m, x).info
    ensures Mid(Evict(m, x), loose, d)
  {
    MidUsable(m, loose, d);
    UntryKeeps(m, x, loose, d);
    var id := m.triedTable[x];
    var w := Untry(m, x);
    var i := w.info[id];
    var y := m.hashing.NewSlot(m.hashing.NewBucket(i.service, i.source), i.service);
    MidUsable(w, loose + {id}, d);
    hide Mid, Usable;
    ClearNewKeeps(w, y, loose + {id}, d);
    ClearNewLater(w, y);
    var c := ClearNew(w, y);
    LooseKnown(c, loose + {id}, d, id);
    PutNewKeeps(c, y, id, loose + {id}, d);
    assert loose + {id} - {id} == loose;
    AddNewKeeps(PutNew(c, y, id), 1, loose, d - 1);
  }

  lemma AddNewKeeps(m: Manager, k: int, loose: set<int>, d: int)
    requires Mid(m, loose, d)
    ensures Mid(AddNew(m, k), loose, d + k)
  {
    hide RandomOk, AddrOk, TriedOk, NewSlotsOk, RefsOk, NewIds, TriedIds;
  }

  /** Eviction keeps every entry but, at most, the occupant of the slot the evicted entry moves to. */
  lemma EvictLater(m: Manager, x: Slot)
    requires Usable(m) && x in m.triedTable
    ensures var e := Evict(m, x);
            Later(m, e) && e.triedTable == m.triedTable - {x} && e.collisions == m.collisions
  {
    var id := m.triedTable[x];
    var w := Untry(m, x);
    assert Usable(w);
    var i := w.info[id];
    var y := m.hashing.NewSlot(m.hashing.NewBucket(i.service, i.source), i.service);
    ClearNewLater(w, y);
  }

  /** The state in which `MakeTried` enters the entry into its slot, which is free by then. */
  ghost function ReadyToTry(m: Manager, id: int): Manager
    requires Usable(m) && id in m.info
  {
    var w := AddNew(RemoveFromNew(m, id), -1);
    var x := m.hashing.TriedSlot(m.info[id].service);
    if x in w.triedTable then Evict(w, x) else w
  }

  lemma ReadyLater(m: Manager, id: int)
    requires Usable(m) && id in m.info
    ensures var e := ReadyToTry(m, id);
            && Later(m, e) && e.collisions == m.collisions
            && e.triedTable == m.triedTable - {m.hashing.TriedSlot(m.info[id].service)}
  {
    var w := AddNew(RemoveFromNew(m, id), -1);
    assert Usable(w);
    var x := m.hashing.TriedSlot(m.info[id].service);
    if x in w.triedTable {
      EvictLater(w, x);
      hide Evict;
      LaterTrans(m, w, Evict(w, x));
    } else {
      assert m.triedTable - {x} == m.triedTable;
    }
  }

  lemma ReadyKeeps(m: Manager, id: int)
    requires Mid(m, {}, 0) && id in m.info && !m.info[id].inTried
    ensures Usable(m) && Mid(ReadyToTry(m, id), {id}, 0)
  {
    MidUsable(m, {}, 0);
    hide Mid, Usable;
    RemoveFromNewKeeps(m, id, {}, 0);
    assert {} + {id} == {id};
    var r := RemoveFromNew(m, id);
    AddNewKeeps(r, -1, {id}, 1);
    var w := AddNew(r, -1);
    var x := m.hashing.TriedSlot(m.info[id].service);
    if x in w.triedTable {
      EvictKeeps(w, x, {id}, 0);
    }
  }

  lemma MakeTriedSplit(m: Manager, id: int)
    requires Mid(m, {}, 0) && id in m.info && !m.info[id].inTried
    ensures Usable(m) && Mid(ReadyToTry(m, id), {id}, 0) && id in ReadyToTry(m, id).info
    ensures MakeTried(m, id) == PutTried(ReadyToTry(m, id), m.hashing.TriedSlot(m.info[id].service), id)
  {
    MidUsable(m, {}, 0);
    hide Mid, Usable;
    ReadyKeeps(m, id);
    LooseKnown(ReadyToTry(m, id), {id}, 0, id);
  }

  lemma MakeTriedKeeps(m: Manager, id: int)
    requires Mid(m, {}, 0) && id in m.info && !m.info[id].inTried
    ensures Usable(m) && Mid(MakeTried(m, id), {}, 0)
  {
    MidUsable(m, {}, 0);
    IdBelow(m, {}, 0, id);
    hide Mid, Usable;
    ReadyLater(m, id);
    MakeTriedSplit(m, id);
    PutTriedKeeps(ReadyToTry(m, id), id, {id}, 0);
    hide MakeTried, ReadyToTry;
    assert {id} - {id} == {};
  }

  lemma MakeTriedLater(m: Manager, id: int)
    requires Mid(m, {}, 0) && id in m.info && !m.info[id].inTried
    ensures Usable(m)
    ensures MakeTried(m, id).triedTable == m.triedTable[m.hashing.TriedSlot(m.info[id].service) := id]
    ensures Later(m, MakeTried(m, id)) && MakeTried(m, id).collisions == m.collisions
  {
    MidUsable(m, {}, 0);
    hide Mid, Usable;
    ReadyLater(m, id);
    MakeTriedSplit(m, id);
    PutTriedLater(m, ReadyToTry(m, id), m.hashing.TriedSlot(m.info[id].service), id);
  }

  lemma PutTriedLater(m: Manager, e: Manager, x: Slot, id: int)
    requires Later(m, e) && id in e.info && e.triedTable == m.triedTable - {x}
    ensures Later(m, PutTried(e, x, id))
    ensures PutTried(e, x, id).triedTable == m.triedTable[x := id]
  {
  }

  lemma IdBelow(m: Manager, loose: set<int>, d: int, id: int)
    requires Mid(m, loose, d) && id in m.info
    ensures 0 <= id < m.idCount
  {
    hide RandomOk, AddrOk, TriedOk, NewSlotsOk, RefsOk, NewIds, TriedIds;
  }

  // --------------------------------------------------------------- operations

  lemma CollisionsLater(m: Manager, m': Manager)
    requires CollisionsOk(m) && IdsOk(m) && Later(m, m')
    requires m.triedTable.Keys <= m'.triedTable.Keys && m'.collisions <= m.collisions
    ensures CollisionsOk(m')
  {
    forall id | id in m'.collisions && id in m'.info
      ensures m'.hashing.TriedSlot(m'.info[id].service) in m'.triedTable
    {
      assert id in m.info;
      assert m.hashing.TriedSlot(m.info[id].service) in m.triedTable.Keys;
    }
  }

  /** What every operation does to the manager: the invariant is kept and tried slots stay occupied. */
  ghost predicate GoodStep(m: Manager, m': Manager) {
    Inv(m') && Later(m, m') && m.triedTable.Keys <= m'.triedTable.Keys
  }

  lemma GoodStepFrom(m: Manager, m': Manager)
    requires Inv(m) && Mid(m', {}, 0) && Later(m, m')
    requires m.triedTable.Keys <= m'.triedTable.Keys && m'.collisions <= m.collisions
    ensures GoodStep(m, m')
  {
    IdsOf(m);
    hide Mid, IdsOk;
    CollisionsLater(m, m');
    Sets.SubsetSize(m'.collisions, m.collisions);
  }

  lemma IdsOf(m: Manager)
    requires Inv(m)
    ensures IdsOk(m)
  {
    hide RandomOk, AddrOk, TriedOk, NewSlotsOk, RefsOk, NewIds, TriedIds;
  }

  /** An entry that is not tried is in some new bucket, so the search in Good_ finds one. */
  lemma UntriedInSomeBucket(m: Manager, id: int)
    requires Mid(m, {}, 0) && id in m.info && !m.info[id].inTried
    ensures InSomeBucket(m, id)
  {
    hide RandomOk, AddrOk, TriedOk, NewIds, TriedIds;
    assert |SlotsOf(m.newTable, id)| == m.info[id].refCount >= 1;
    var x := Sets.AnyOf(SlotsOf(m.newTable, id));
    assert x in m.newTable && m.newTable[x] == id;
    assert InBucket(m, id, x.bucket);
  }

  lemma TouchStep(m: Manager, id: int, i: Info, lastGood: int)
    requires Inv(m) && id in m.info
    requires i.service == m.info[id].service && i.refCount == m.info[id].refCount
    requires i.inTried == m.info[id].inTried && i.randomPos == m.info[id].randomPos
    ensures GoodStep(m, SetInfo(m, id, i).(lastGood := lastGood))
  {
    TouchInfo(m, id, i, {}, 0);
    var m1 := SetInfo(m, id, i).(lastGood := lastGood);
    LastGoodFrame(SetInfo(m, id, i), lastGood);
    hide Mid, CollisionsOk;
    GoodStepFrom(m, m1);
  }

  lemma LastGoodFrame(m: Manager, lastGood: int)
    requires Mid(m, {}, 0)
    ensures Mid(m.(lastGood := lastGood), {}, 0)
  {
    hide RandomOk, AddrOk, TriedOk, NewSlotsOk, RefsOk, NewIds, TriedIds;
  }

  lemma InvUsable(m: Manager)
    requires Inv(m)
    ensures Usable(m)
  {
    MidUsable(m, {}, 0);
  }

  lemma MakeTriedStep(m: Manager, id: int)
    requires Inv(m) && id in m.info && !m.info[id].inTried
    ensures Usable(m) && GoodStep(m, MakeTried(m, id))
  {
    hide Mid, CollisionsOk;
    MakeTriedKeeps(m, id);
    MakeTriedLater(m, id);
    hide MakeTried;
    GoodStepFrom(m, MakeTried(m, id));
  }

  lemma CollisionStep(m: Manager, id: int)
    requires Inv(m) && id in m.info && m.hashing.TriedSlot(m.info[id].service) in m.triedTable
    requires |m.collisions| < SET_TRIED_COLLISION_SIZE
    ensures GoodStep(m, m.(collisions := m.collisions + {id}))
  {
    hide RandomOk, AddrOk, TriedOk, NewSlotsOk, RefsOk, NewIds, TriedIds;
  }

  lemma FindExactKnown(m: Manager, s: Service)
    ensures FindExact(m, s).Some? ==>
              FindExact(m, s).value in m.info && m.info[FindExact(m, s).value].service == s
  {
  }

  lemma GoodStepTrans(a: Manager, b: Manager, c: Manager)
    requires GoodStep(a, b) && GoodStep(b, c)
    ensures GoodStep(a, c)
  {
    hide Inv;
    LaterTrans(a, b, c);
  }

  /** Good_ keeps the invariant, and for an entry that is not tried it finds a new bucket. */
  lemma GoodKeeps(m: Manager, s: Service, test: bool, time: int)
    requires Inv(m)
    ensures Usable(m) && GoodStep(m, Good(m, s, test, time))
    ensures var f := FindExact(m, s);
            f.Some? ==> f.value in m.info && (m.info[f.value].inTried || InSomeBucket(m, f.value))
  {
    InvUsable(m);
    FindExactKnown(m, s);
    hide Usable, Later, CollisionsOk;
    var f := FindExact(m, s);
    if f.None? {
      hide Mid;
      LastGoodFrame(m, time);
      LaterRefl(m, m.(lastGood := time));
      GoodStepFrom(m, m.(lastGood := time));
    } else {
      hide Mid;
      GoodFound(m, s, f.value, test, time);
    }
  }

  lemma LaterRefl(m: Manager, m': Manager)
    requires m'.discriminatePorts == m.discriminatePorts && m'.hashing == m.hashing
    requires m'.idCount == m.idCount && m'.info == m.info
    ensures Later(m, m')
  {
  }

  lemma PromoteKeeps(m: Manager, id: int, test: bool)
    requires Inv(m) && id in m.info
    ensures Usable(m) && GoodStep(m, Promote(m, id, test))
    ensures m.info[id].inTried || InSomeBucket(m, id)
  {
    hide Usable, Mid, CollisionsOk, InSomeBucket, MakeTried, Hashing.TriedSlot, Later;
    InvUsable(m);
    LaterRefl(m, m);
    if !m.info[id].inTried {
      UntriedInSomeBucket(m, id);
      MakeTriedStep(m, id);
      if m.hashing.TriedSlot(m.info[id].service) in m.triedTable && |m.collisions| < SET_TRIED_COLLISION_SIZE {
        CollisionStep(m, id);
      }
    }
  }

  lemma GoodFound(m: Manager, s: Service, id: int, test: bool, time: int)
    requires Inv(m) && FindExact(m, s) == Some(id) && id in m.info && m.info[id].service == s
    ensures Usable(m) && GoodStep(m, Good(m, s, test, time))
    ensures m.info[id].inTried || InSomeBucket(m, id)
  {
    InvUsable(m);
    var i := m.info[id].(lastSuccess := time, lastTry := time, attempts := 0);
    var m1 := SetInfo(m, id, i).(lastGood := time);
    TouchStep(m, id, i, time);
    PromoteKeeps(m, id, test);
    PromoteKeeps(m1, id, test);
    hide Usable, Inv, InSomeBucket, Promote;
    GoodStepTrans(m, m1, Promote(m1, id, test));
  }

  /** Without the test, nothing is queued. */
  lemma GoodNow(m: Manager, s: Service, time: int)
    requires Inv(m)
    ensures Usable(m) && Good(m, s, false, time).collisions == m.collisions
  {
    hide Mid, Usable, MakeTried, CollisionsOk, Later, InSomeBucket;
    InvUsable(m);
    FindExactKnown(m, s);
    var f := FindExact(m, s);
    if f.Some? {
      var id := f.value;
      var i := m.info[id].(lastSuccess := time, lastTry := time, attempts := 0);
      TouchStep(m, id, i, time);
      var m1 := SetInfo(m, id, i).(lastGood := time);
      InvUsable(m1);
      if !m.info[id].inTried {
        MakeTriedLater(m1, id);
      }
    }
  }

  /** An id that is about to get a slot: known and not tried; loose exactly when it has no slot yet. */
  ghost predicate Placeable(m: Manager, id: int, loose: set<int>, d: int) {
    && Mid(m, loose, d) && id in m.info && !m.info[id].inTried
    && ((loose == {} && d == 0) || (loose == {id} && d == 1))
  }

  lemma PlaceableFacts(m: Manager, id: int, loose: set<int>, d: int)
    requires Placeable(m, id, loose, d)
    ensures Usable(m) && (m.info[id].refCount == 0 <==> loose == {id}) && 0 <= id < m.idCount
    ensures loose == {id} ==> forall x | x in m.newTable :: m.newTable[x] != id
  {
    MidUsable(m, loose, d);
    IdBelow(m, loose, d, id);
    hide RandomOk, AddrOk, NewIds, TriedIds;
    if id in loose {
      LooseHasNoSlots(m.info, m.newTable, loose, id);
      forall x | x in m.newTable ensures m.newTable[x] != id {
        assert x !in SlotsOf(m.newTable, id);
      }
    }
  }

  lemma PlaceInsert(m: Manager, id: int, x: Slot, loose: set<int>, d: int)
    requires Placeable(m, id, loose, d) && m.info[id].refCount < NEW_BUCKETS_PER_ADDRESS
    requires x.bucket < NEW_BUCKET_COUNT && x == m.hashing.NewSlot(x.bucket, m.info[id].service)
    requires x in m.newTable ==> m.newTable[x] != id
    ensures Usable(m) && id in ClearNew(m, x).info
    ensures Mid(PutNew(ClearNew(m, x), x, id), {}, 0)
    ensures Later(m, PutNew(ClearNew(m, x), x, id))
  {
    hide Mid, Usable;
    PlaceableFacts(m, id, loose, d);
    ClearNewKeeps(m, x, loose, d);
    ClearNewLater(m, x);
    var c := ClearNew(m, x);
    hide ClearNew;
    PutNewKeeps(c, x, id, loose, d);
    assert {id} - {id} == {} && {} - {id} == {};
  }

  lemma PlaceKeeps(m: Manager, id: int, source: NetAddr, now: int, loose: set<int>, d: int)
    requires Placeable(m, id, loose, d) && m.info[id].refCount < NEW_BUCKETS_PER_ADDRESS
    ensures Usable(m)
    ensures var c := Place(m, id, source, now);
            && Mid(c, {}, 0) && Later(m, c) && c.triedTable == m.triedTable && c.collisions == m.collisions
  {
    hide Mid, Usable;
    PlaceableFacts(m, id, loose, d);
    LaterRefl(m, m);
    var s := m.info[id].service;
    var x := m.hashing.NewSlot(m.hashing.NewBucket(s, source), s);
    if x in m.newTable && m.newTable[x] == id {
    } else {
      PlaceInsert(m, id, x, loose, d);
      ClearNewLater(m, x);
      hide ClearNew, Later, IsTerrible;
      if m.info[id].refCount == 0 {
        PlaceDelete(m, id);
        hide Delete;
      }
    }
  }

  lemma PlaceDelete(m: Manager, id: int)
    requires Mid(m, {id}, 1)
    ensures Usable(m) && id in m.info
    ensures var c := Delete(m, id);
            && Mid(c, {}, 0) && Later(m, c) && c.triedTable == m.triedTable && c.collisions == m.collisions
  {
    MidUsable(m, {id}, 1);
    hide Mid;
    LooseKnown(m, {id}, 1, id);
    DeleteKeeps(m, id, {id}, 1);
    DeleteEffect(m, id);
    hide Delete, Usable;
    assert {id} - {id} == {};
  }

  lemma RefsBounded(m: Manager, id: int)
    requires Inv(m) && id in m.info && !m.info[id].inTried
    ensures 1 <= m.info[id].refCount <= NEW_BUCKETS_PER_ADDRESS
  {
    hide RandomOk, AddrOk, TriedOk, NewSlotsOk, NewIds, TriedIds, SlotsOf;
  }

  lemma ReannounceKeeps(m: Manager, id: int, a: Address, source: NetAddr, penalty: int, now: int, roll: nat)
    requires Inv(m) && id in m.info
    ensures Usable(m) && GoodStep(m, Reannounce(m, id, a, source, penalty, now, roll))
  {
    InvUsable(m);
    hide Mid, Usable, Later, CollisionsOk, Refreshed, Improves;
    var i := Refreshed(m.info[id], a, penalty, now);
    RefreshedFrame(m.info[id], a, penalty, now);
    var m1 := SetInfo(m, id, i);
    TouchStep(m, id, i, m.lastGood);
    assert m1 == SetInfo(m, id, i).(lastGood := m.lastGood);
    InvUsable(m1);
    if Improves(i, a, roll) {
      ImprovesFacts(i, a, roll);
      RefsBounded(m1, id);
      PlaceKeeps(m1, id, source, now, {}, 0);
      hide Place;
      GoodStepFrom(m1, Place(m1, id, source, now));
      GoodStepTrans(m, m1, Place(m1, id, source, now));
    }
  }

  lemma RefreshedFrame(i: Info, a: Address, penalty: int, now: int)
    ensures var r := Refreshed(i, a, penalty, now); r == i.(time := r.time, services := r.services)
  {
  }

  lemma ImprovesFacts(i: Info, a: Address, roll: nat)
    requires Improves(i, a, roll)
    ensures !i.inTried && i.refCount != NEW_BUCKETS_PER_ADDRESS
  {
  }

  lemma FindNone(m: Manager, s: Service)
    requires Inv(m) && Find(m, s).None?
    ensures Key(m.discriminatePorts, s) !in m.addr
  {
    hide RandomOk, TriedOk, NewSlotsOk, RefsOk, NewIds, TriedIds;
  }

  lemma EnterKeeps(m: Manager, a: Address, source: NetAddr, penalty: int)
    requires Inv(m) && Find(m, a.service).None?
    ensures var m1 := Enter(m, a, source, penalty);
            && Placeable(m1, m.idCount, {m.idCount}, 1) && m1.info[m.idCount].refCount == 0
            && Later(m, m1)
            && m1.triedTable == m.triedTable && m1.collisions == m.collisions
  {
    hide Mid, CollisionsOk, ToU32;
    FindNone(m, a.service);
    var id := m.idCount;
    CreateKeeps(m, a, source, {}, 0);
    assert {} + {id} == {id};
    var c := Create(m, a, source);
    var i := c.info[id].(time := ToU32(Max0(c.info[id].time - penalty)));
    TouchInfo(c, id, i, {id}, 0);
    AddNewKeeps(SetInfo(c, id, i), 1, {id}, 0);
  }

  lemma AnnounceKeeps(m: Manager, a: Address, source: NetAddr, penalty: int, now: int)
    requires Inv(m) && Find(m, a.service).None?
    ensures Usable(m) && GoodStep(m, Announce(m, a, source, penalty, now))
  {
    InvUsable(m);
    hide Mid, Usable, CollisionsOk, Later, Enter, Place, Placeable;
    EnterKeeps(m, a, source, penalty);
    var m1 := Enter(m, a, source, penalty);
    PlaceKeeps(m1, m.idCount, source, now, {m.idCount}, 1);
    LaterTrans(m, m1, Place(m1, m.idCount, source, now));
    GoodStepFrom(m, Place(m1, m.idCount, source, now));
  }

  /** Add_ keeps the invariant. */
  lemma AddKeeps(m: Manager, a: Address, source: NetAddr, timePenalty: int, now: int, roll: nat)
    requires Inv(m)
    ensures Usable(m) && GoodStep(m, Add(m, a, source, timePenalty, now, roll).0)
  {
    hide Mid, Usable, CollisionsOk, Later, Reannounce, Announce;
    InvUsable(m);
    LaterRefl(m, m);
    var penalty := if a.service.ip == source then 0 else timePenalty;
    var f := Find(m, a.service);
    if f.Some? {
      ReannounceKeeps(m, f.value, a, source, penalty, now, roll);
    } else {
      AnnounceKeeps(m, a, source, penalty, now);
    }
  }

  lemma AttemptKeeps(m: Manager, s: Service, countFailure: bool, time: int)
    requires Inv(m)
    ensures GoodStep(m, Attempt(m, s, countFailure, time))
  {
    hide Mid, CollisionsOk;
    LaterRefl(m, m);
    var f := FindExact(m, s);
    if f.Some? {
      TouchStep(m, f.value, Attempt(m, s, countFailure, time).info[f.value], m.lastGood);
    }
  }

  lemma ConnectedKeeps(m: Manager, s: Service, time: int)
    requires Inv(m)
    ensures GoodStep(m, Connected(m, s, time))
  {
    hide Mid, CollisionsOk;
    LaterRefl(m, m);
    var f := FindExact(m, s);
    if f.Some? {
      TouchStep(m, f.value, Connected(m, s, time).info[f.value], m.lastGood);
    }
  }

  lemma SetServicesKeeps(m: Manager, s: Service, services: set<nat>)
    requires Inv(m)
    ensures GoodStep(m, SetServices(m, s, services))
  {
    hide Mid, CollisionsOk;
    LaterRefl(m, m);
    var f := FindExact(m, s);
    if f.Some? {
      TouchStep(m, f.value, SetServices(m, s, services).info[f.value], m.lastGood);
    }
  }
}
