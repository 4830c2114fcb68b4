/**
 What the operations do, beyond keeping the invariant: where the entries they
 are about end up, and what else can get lost.
 */
module AddrManEffects {
  import opened Options
  import opened AddrManModel
  import opened AddrManInvariant

  /** The new slot that an entry's own source selects. */
  ghost function SourceSlot(m: Manager, id: int): Slot
    requires id in m.info
  {
    m.hashing.NewSlot(m.hashing.NewBucket(m.info[id].service, m.info[id].source), m.info[id].service)
  }

  /** The evicted entry takes over the slot of its source; only the occupant of that slot can get lost. */
  lemma EvictEffect(m: Manager, x: Slot, loose: set<int>, d: int)
    requires Mid(m, loose, d) && x in m.triedTable && m.triedTable[x] in m.info
    ensures Usable(m)
    ensures var o, e := m.triedTable[x], Evict(m, x);
            var y := SourceSlot(m, o);
            && o in e.info && !e.info[o].inTried && e.info[o].refCount == m.info[o].refCount + 1
            && e.newTable == m.newTable[y := o]
            && (forall k | k in m.info && k !in e.info :: y in m.newTable && k == m.newTable[y])
            && (forall k | k in e.info && k != o && !(y in m.newTable && k == m.newTable[y]) ::
                  k in m.info && e.info[k] == m.info[k].(randomPos := e.info[k].randomPos))
  {
    hide Mid, Usable, ClearNew, Later;
    MidUsable(m, loose, d);
    UntryKeeps(m, x, loose, d);
    var o := m.triedTable[x];
    var w := Untry(m, x);
    var y := SourceSlot(m, o);
    MidUsable(w, loose + {o}, d);
    ClearNewKeeps(w, y, loose + {o}, d);
    ClearNewLater(w, y);
    ClearNewKeys(w, y);
    var c := ClearNew(w, y);
    LooseKnown(c, loose + {o}, d, o);
    NotTheOccupant(w, y, loose + {o}, d, o);
    assert Evict(m, x) == AddNew(PutNew(c, y, o), 1);
    assert c.newTable[y := o] == m.newTable[y := o];
    assert c.info[o] == w.info[o].(randomPos := c.info[o].randomPos);
  }

  lemma ClearNewKeys(m: Manager, x: Slot)
    requires Usable(m)
    ensures ClearNew(m, x).info.Keys <= m.info.Keys
  {
    hide Delete;
    if x in m.newTable {
      var u := Unslot(m, x);
      assert Usable(u);
      if u.info[m.newTable[x]].refCount == 0 {
        DeleteEffect(u, m.newTable[x]);
      }
    }
  }

  /** An entry without slots occupies none. */
  lemma NotTheOccupant(w: Manager, y: Slot, loose: set<int>, d: int, o: int)
    requires Mid(w, loose, d) && o in loose
    ensures !(y in w.newTable && w.newTable[y] == o)
  {
    hide RandomOk, AddrOk, TriedOk, NewIds, TriedIds;
    assert y in w.newTable && w.newTable[y] == o ==> y in SlotsOf(w.newTable, o);
  }

  /**
   Moving an entry to the tried table: it holds its tried slot and no new one; the entry it found there, if any,
   is a new entry with one reference, in the slot its source selects; and at most one entry is lost, the one that
   had that slot as its only reference.
   */
  lemma MakeTriedEffect(m: Manager, id: int)
    requires Mid(m, {}, 0) && id in m.info && !m.info[id].inTried
    ensures Usable(m)
    ensures var x, m' := m.hashing.TriedSlot(m.info[id].service), MakeTried(m, id);
            && id in m'.info && m'.info[id].inTried && m'.info[id].refCount == 0
            && m'.triedTable == m.triedTable[x := id]
            && (x !in m.triedTable ==>
                  m'.info.Keys == m.info.Keys && m'.newTable == m.newTable - SlotsOf(m.newTable, id))
            && (x in m.triedTable ==>
                  var o := m.triedTable[x];
                  && o in m.info && o in m'.info && !m'.info[o].inTried && m'.info[o].refCount == 1
                  && m'.newTable == (m.newTable - SlotsOf(m.newTable, id))[SourceSlot(m, o) := o]
                  && forall k | k in m.info && k !in m'.info ::
                       SourceSlot(m, o) in m.newTable && k == m.newTable[SourceSlot(m, o)] && m.info[k].refCount == 1)
  {
    hide Mid, Usable, Evict, Later, SlotsOf, Hashing.TriedSlot, Hashing.NewSlot;
    MidUsable(m, {}, 0);
    RemoveFromNewKeeps(m, id, {}, 0);
    assert {} + {id} == {id};
    var r := RemoveFromNew(m, id);
    AddNewKeeps(r, -1, {id}, 1);
    var w := AddNew(r, -1);
    MakeTriedSplit(m, id);
    MakeTriedLater(m, id);
    LooseKnown(ReadyToTry(m, id), {id}, 0, id);
    var x := m.hashing.TriedSlot(m.info[id].service);
    if x in m.triedTable {
      UntryKeeps(w, x, {id}, 0);
      EvictEffect(w, x, {id}, 0);
      var o := m.triedTable[x];
      TriedNoRefs(m, x);
      forall k | k in m.info && k !in MakeTried(m, id).info
        ensures SourceSlot(m, o) in m.newTable && k == m.newTable[SourceSlot(m, o)] && m.info[k].refCount == 1
      {
        LostHadOne(w, x, {id}, 0, k);
      }
    }
  }

  /** A tried entry has no references. */
  lemma TriedNoRefs(m: Manager, x: Slot)
    requires Mid(m, {}, 0) && x in m.triedTable
    ensures m.triedTable[x] in m.info && m.info[m.triedTable[x]].refCount == 0
  {
    hide RandomOk, AddrOk, NewIds, TriedIds;
    TriedHasNoSlots(m.hashing, m.info, m.newTable, m.triedTable[x]);
  }

  /** An entry that an eviction loses had one reference. */
  lemma LostHadOne(m: Manager, x: Slot, loose: set<int>, d: int, k: int)
    requires Mid(m, loose, d) && x in m.triedTable && k in m.info
    ensures Usable(m) && (k !in Evict(m, x).info ==> m.info[k].refCount == 1)
  {
    hide Mid, Usable, ClearNew, Later;
    MidUsable(m, loose, d);
    UntryKeeps(m, x, loose, d);
    var o := m.triedTable[x];
    var w := Untry(m, x);
    var y := SourceSlot(m, o);
    MidUsable(w, loose + {o}, d);
    ClearNewLosesOne(w, y, k);
  }

  lemma ClearNewLosesOne(m: Manager, x: Slot, k: int)
    requires Usable(m) && k in m.info
    ensures k !in ClearNew(m, x).info ==> m.info[k].refCount == 1
  {
    hide Delete;
    if x in m.newTable {
      var u := Unslot(m, x);
      assert Usable(u);
      if u.info[m.newTable[x]].refCount == 0 {
        DeleteEffect(u, m.newTable[x]);
      }
    }
  }

  // -------------------------------------------------------------------- adding

  /** The new slot that a source selects for an entry. */
  ghost function SlotFrom(m: Manager, s: Service, source: NetAddr): Slot {
    m.hashing.NewSlot(m.hashing.NewBucket(s, source), s)
  }

  /** Whether an entry may take a new slot: free, or held by a terrible entry, or by one that can spare it. */
  ghost predicate MayTake(m: Manager, id: int, x: Slot, now: int)
    requires id in m.info && (x in m.newTable ==> m.newTable[x] in m.info)
  {
    || x !in m.newTable
    || IsTerrible(m.info[m.newTable[x]], now)
    || (m.info[m.newTable[x]].refCount > 1 && m.info[id].refCount == 0)
  }

  /** An entry gets the slot exactly when it may take it; only an occupant with no other slot is lost for it. */
  lemma PlaceEffect(m: Manager, id: int, source: NetAddr, now: int, loose: set<int>, d: int)
    requires Placeable(m, id, loose, d) && m.info[id].refCount < NEW_BUCKETS_PER_ADDRESS
    ensures Usable(m)
    ensures var x, c := SlotFrom(m, m.info[id].service, source), Place(m, id, source, now);
            var mine := x in m.newTable && m.newTable[x] == id;
            && (mine ==> c == m)
            && (!mine && MayTake(m, id, x, now) ==>
                  id in c.info && c.newTable == m.newTable[x := id]
                  && c.info[id] == m.info[id].(refCount := m.info[id].refCount + 1, randomPos := c.info[id].randomPos))
            && (!mine && !MayTake(m, id, x, now) ==>
                  c.newTable == m.newTable && (id in c.info <==> m.info[id].refCount > 0))
            && (forall k | k in m.info && k !in c.info && k != id ::
                  MayTake(m, id, x, now) && x in m.newTable && k == m.newTable[x] && m.info[k].refCount == 1)
  {
    hide Mid, ClearNew, Delete, Later, IsTerrible, Hashing.NewSlot;
    PlaceableFacts(m, id, loose, d);
    RefsNonNegative(m, id, loose, d);
    var x := SlotFrom(m, m.info[id].service, source);
    ClearNewLater(m, x);
    if x in m.newTable && m.newTable[x] == id {
    } else if MayTake(m, id, x, now) {
      var c := ClearNew(m, x);
      assert id in c.info;
      assert c.newTable[x := id] == m.newTable[x := id];
      forall k | k in m.info && k !in c.info
        ensures m.info[k].refCount == 1
      {
        ClearNewLosesOne(m, x, k);
      }
    } else if m.info[id].refCount == 0 {
      DeleteEffect(m, id);
    }
  }

  lemma RefsNonNegative(m: Manager, id: int, loose: set<int>, d: int)
    requires Placeable(m, id, loose, d)
    ensures m.info[id].refCount >= 0
  {
    hide RandomOk, AddrOk, TriedOk, NewSlotsOk, NewIds, TriedIds;
  }

  /**
   An announcement of an unknown address: it is known afterwards exactly when the slot of the announcing source was
   free or could be taken, and then it has that slot as its one reference; at most one other entry is lost.
   */
  lemma AnnounceEffect(m: Manager, a: Address, source: NetAddr, penalty: int, now: int)
    requires Inv(m) && Find(m, a.service).None?
    ensures Usable(m)
    ensures var id, x, m' := m.idCount, SlotFrom(m, a.service, source), Announce(m, a, source, penalty, now);
            var free := x !in m.newTable || IsTerrible(m.info[m.newTable[x]], now)
                        || m.info[m.newTable[x]].refCount > 1;
            && (id in m'.info <==> free)
            && (free ==> m'.info[id].service == a.service && m'.info[id].source == source && m'.info[id].refCount == 1
                         && !m'.info[id].inTried && m'.newTable == m.newTable[x := id])
            && (!free ==> m'.newTable == m.newTable)
            && (forall k | k in m.info && k !in m'.info ::
                  free && x in m.newTable && k == m.newTable[x] && m.info[k].refCount == 1)
  {
    hide Mid, Usable, Place, Placeable, IsTerrible, Hashing.NewSlot, Later, CollisionsOk;
    InvUsable(m);
    EnterKeeps(m, a, source, penalty);
    var m1 := Enter(m, a, source, penalty);
    NewIdUnknown(m);
    SlotsKnown(m);
    PlaceEffect(m1, m.idCount, source, now, {m.idCount}, 1);
  }

  lemma NewIdUnknown(m: Manager)
    requires Inv(m)
    ensures m.idCount !in m.info
  {
    hide RandomOk, AddrOk, TriedOk, NewSlotsOk, RefsOk, NewIds, TriedIds;
  }

  lemma SlotsKnown(m: Manager)
    requires Inv(m)
    ensures forall x | x in m.newTable :: m.newTable[x] in m.info
  {
    InvUsable(m);
  }

  // ------------------------------------------------------------------ promoting

  /** Without a test before eviction, an address that is known exactly ends up refreshed and tried. */
  lemma GoodEffect(m: Manager, s: Service, time: int)
    requires Inv(m)
    ensures Usable(m)
    ensures var f, m' := FindExact(m, s), Good(m, s, false, time);
            && m'.lastGood == time
            && (f.None? ==> m' == m.(lastGood := time))
            && (f.Some? ==> f.value in m'.info && m'.info[f.value].inTried && m'.info[f.value].service == s
                            && m'.info[f.value].lastSuccess == time && m'.info[f.value].attempts == 0)
  {
    hide Mid, Usable, MakeTried, CollisionsOk, Later, InSomeBucket;
    InvUsable(m);
    FindExactKnown(m, s);
    var f := FindExact(m, s);
    if f.Some? {
      var id := f.value;
      var i := m.info[id].(lastSuccess := time, lastTry := time, attempts := 0);
      TouchStep(m, id, i, time);
      var m1 := SetInfo(m, id, i).(lastGood := time);
      InvUsable(m1);
      if !m.info[id].inTried {
        UntriedInSomeBucket(m1, id);
        MakeTriedKeepsEntry(m1, id);
      }
    }
  }

  /** The entry that is moved keeps what is known about it. */
  lemma MakeTriedKeepsEntry(m: Manager, id: int)
    requires Mid(m, {}, 0) && id in m.info && !m.info[id].inTried
    ensures Usable(m)
    ensures var m' := MakeTried(m, id);
            && id in m'.info && m'.lastGood == m.lastGood
            && m'.info[id] == m.info[id].(refCount := 0, inTried := true, randomPos := m'.info[id].randomPos)
  {
    hide Mid, Usable, Evict, Later, SlotsOf, Hashing.TriedSlot, Hashing.NewSlot;
    MidUsable(m, {}, 0);
    RemoveFromNewKeeps(m, id, {}, 0);
    assert {} + {id} == {id};
    var r := RemoveFromNew(m, id);
    AddNewKeeps(r, -1, {id}, 1);
    var w := AddNew(r, -1);
    MakeTriedSplit(m, id);
    LooseKnown(w, {id}, 0, id);
    var x := m.hashing.TriedSlot(m.info[id].service);
    if x in m.triedTable {
      UntryKeeps(w, x, {id}, 0);
      EvictEffect(w, x, {id}, 0);
      EvictGood(w, x, {id}, 0);
      NotTheOccupant(w, SourceSlot(w, w.triedTable[x]), {id}, 0, id);
    }
  }

  lemma EvictGood(m: Manager, x: Slot, loose: set<int>, d: int)
    requires Mid(m, loose, d) && x in m.triedTable
    ensures Usable(m) && Evict(m, x).lastGood == m.lastGood
  {
    hide Mid, ClearNew, Usable;
    MidUsable(m, loose, d);
    UntryKeeps(m, x, loose, d);
    var o := m.triedTable[x];
    MidUsable(Untry(m, x), loose + {o}, d);
    ClearNewGood(Untry(m, x), SourceSlot(m, o));
  }

  lemma ClearNewGood(m: Manager, x: Slot)
    requires Usable(m)
    ensures ClearNew(m, x).lastGood == m.lastGood
  {
  }

  /** With a test before eviction, an entry whose tried slot is taken stays where it is and waits, if there is room to
      wait. */
  lemma GoodWaits(m: Manager, s: Service, time: int)
    requires Inv(m) && FindExact(m, s).Some? && !m.info[FindExact(m, s).value].inTried
    requires m.hashing.TriedSlot(s) in m.triedTable
    ensures Usable(m)
    ensures var id, m' := FindExact(m, s).value, Good(m, s, true, time);
            && m'.info.Keys == m.info.Keys && m'.newTable == m.newTable && m'.triedTable == m.triedTable
            && m'.collisions == if |m.collisions| < SET_TRIED_COLLISION_SIZE then m.collisions + {id} else m.collisions
  {
    hide Mid, Usable, MakeTried, CollisionsOk, Later, InSomeBucket;
    InvUsable(m);
    FindExactKnown(m, s);
    var id := FindExact(m, s).value;
    var i := m.info[id].(lastSuccess := time, lastTry := time, attempts := 0);
    TouchStep(m, id, i, time);
    var m1 := SetInfo(m, id, i).(lastGood := time);
    InvUsable(m1);
    UntriedInSomeBucket(m1, id);
  }
}
