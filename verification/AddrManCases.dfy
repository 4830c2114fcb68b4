/**
 Runs of the address manager that reach the states in which one of its promises
 fails, and exactly when an announcement is reported although it is dropped.
 */
module AddrManCases {
  import opened Options
  import opened AddrManModel
  import opened AddrManInvariant
  import opened AddrManEffects
  import opened AddrManRuns
  import opened AddrManStream
  import opened AddrManRoundTrip
  import opened AddrManTimes

  /** Hashes that tell only the bucket of a new address, by its address; every tried address has the same slot. */
  ghost function ByIp(): Hashing {
    Hashing((s: Service, _) => s.ip, _ => 0, (_, _, _) => 0, _ => true, _ => true)
  }

  /** Hashes that give every address the same slot. */
  ghost function OneSlot(): Hashing {
    Hashing((_, _) => 0, _ => 0, (_, _, _) => 0, _ => true, _ => true)
  }

  // ------------------------------------------------------------- simple steps

  /** An unknown address whose slot is free gets the next id and that slot; all else stays as it was. */
  lemma AddToFree(m: Manager, a: Address, source: NetAddr, penalty: int, now: int, roll: nat)
    requires Usable(m) && m.hashing.routable(a.service.ip) && m.idCount !in m.info
    requires Key(m.discriminatePorts, a.service) !in m.addr && SlotFrom(m, a.service, source) !in m.newTable
    ensures var id, (m', isNew) := m.idCount, Add(m, a, source, penalty, now, roll);
            && isNew && id in m'.info && m'.info == m.info[id := m'.info[id]]
            && m'.info[id].service == a.service && !m'.info[id].inTried && m'.info[id].refCount == 1
            && m'.info[id].lastTry == 0 && m'.info[id].attempts == 0
            && m'.info[id].time == ToU32(Max0(a.time - if a.service.ip == source then 0 else penalty))
            && m' == m.(idCount := id + 1, info := m'.info, random := m.random + [id], nNew := m.nNew + 1,
                        addr := m.addr[Key(m.discriminatePorts, a.service) := id],
                        newTable := m.newTable[SlotFrom(m, a.service, source) := id])
  {
    hide ToU32, Max0, IsTerrible;
    var p := if a.service.ip == source then 0 else penalty;
    var m1 := Enter(m, a, source, p);
    EnterUsable(m, a, source, p);
    assert ClearNew(m1, SlotFrom(m, a.service, source)) == m1;
  }

  lemma EnterUsable(m: Manager, a: Address, source: NetAddr, penalty: int)
    requires Usable(m) && m.idCount !in m.info
    ensures var m1 := Enter(m, a, source, penalty); Usable(m1) && m.idCount in m1.info && m1.newTable == m.newTable
  {
    var m1 := Enter(m, a, source, penalty);
    forall k | 0 <= k < |m1.random| ensures m1.random[k] in m1.info {
    }
  }

  /** An untried address that is known exactly, and whose tried slot is free, moves there; all else stays. */
  lemma GoodToFree(m: Manager, s: Service, time: int)
    requires Inv(m) && FindExact(m, s).Some? && !m.info[FindExact(m, s).value].inTried
    requires m.hashing.TriedSlot(s) !in m.triedTable
    ensures Usable(m)
    ensures var id, m' := FindExact(m, s).value, Good(m, s, false, time);
            && m'.info.Keys == m.info.Keys && m'.addr == m.addr && m'.collisions == m.collisions
            && (forall k | k in m.info && k != id :: m'.info[k] == m.info[k])
            && m'.triedTable == m.triedTable[m.hashing.TriedSlot(s) := id]
  {
    hide Mid, Usable, CollisionsOk, Later, InSomeBucket, SlotsOf, Hashing.TriedSlot;
    InvUsable(m);
    FindExactKnown(m, s);
    var id := FindExact(m, s).value;
    var i := m.info[id].(lastSuccess := time, lastTry := time, attempts := 0);
    TouchStep(m, id, i, time);
    var m1 := SetInfo(m, id, i).(lastGood := time);
    InvUsable(m1);
    UntriedInSomeBucket(m1, id);
  }

  lemma EmptyUsable(discriminatePorts: bool, hashing: Hashing, collisions: set<int>)
    ensures Usable(Empty(discriminatePorts, hashing).(collisions := collisions))
  {
  }

  lemma RunOne(m: Manager, op: Operation)
    requires Inv(m)
    ensures Run(m, [op]) == Apply(m, op)
  {
    hide Inv, Apply;
    assert [op][..0] == [];
  }

  lemma RunMore(m: Manager, ops: seq<Operation>, op: Operation)
    requires Inv(m)
    ensures Run(m, ops + [op]) == Apply(Run(m, ops), op)
  {
    hide Inv, Apply;
    assert (ops + [op])[..|ops|] == ops;
  }

  // ------------------------------------------------------------ the time tests

  /** A success at time 0 makes an entry tried that Check_ takes for one that never was: its test -1 fails. */
  lemma TimeTestFails(discriminatePorts: bool, hashing: Hashing, a: Address, source: NetAddr, now: int)
    requires hashing.routable(a.service.ip)
    ensures Inv(Empty(discriminatePorts, hashing))
    ensures var m := Run(Empty(discriminatePorts, hashing),
                         [OpAdd(a, source, 0, now, 0), OpGood(a.service, false, 0)]);
            && 0 in m.info && m.info[0].inTried && m.info[0].lastSuccess == 0
            && !CheckPasses(m)
  {
    var e := Empty(discriminatePorts, hashing);
    EmptyInv(discriminatePorts, hashing);
    hide Inv, Good, Add, CheckPasses;
    var add := OpAdd(a, source, 0, now, 0);
    RunOne(e, add);
    RunMore(e, [add], OpGood(a.service, false, 0));
    assert [add] + [OpGood(a.service, false, 0)] == [add, OpGood(a.service, false, 0)];
    InvUsable(e);
    AddToFree(e, a, source, 0, now, 0);
    var m1 := Run(e, [add]);
    assert FindExact(m1, a.service) == Some(0);
    GoodEffect(m1, a.service, 0);
    var m := Run(e, [add, OpGood(a.service, false, 0)]);
    CheckExact(m);
    assert !EntryTimes(m.info[0]);
  }

  // ------------------------------------------------------------ the index test

  /** The manager after announcements of two addresses with different buckets. */
  lemma TwoAdded(discriminatePorts: bool, a: Address, b: Address, source: NetAddr, now: int)
    requires a.service.ip != b.service.ip && a.service.ip < NEW_BUCKET_COUNT && b.service.ip < NEW_BUCKET_COUNT
    ensures Inv(Empty(discriminatePorts, ByIp()))
    ensures var e := Empty(discriminatePorts, ByIp());
            var m := Run(e, [OpAdd(a, source, 0, now, 0), OpAdd(b, source, 0, now, 0)]);
            && m.discriminatePorts == discriminatePorts && m.hashing == ByIp() && m.info.Keys == {0, 1}
            && m.info[0].service == a.service && m.info[1].service == b.service
            && !m.info[0].inTried && !m.info[1].inTried && m.triedTable == map[] && m.collisions == {}
  {
    var e := Empty(discriminatePorts, ByIp());
    EmptyInv(discriminatePorts, ByIp());
    hide Inv, Add;
    var x, y := OpAdd(a, source, 0, now, 0), OpAdd(b, source, 0, now, 0);
    RunOne(e, x);
    RunMore(e, [x], y);
    assert [x] + [y] == [x, y];
    InvUsable(e);
    AddToFree(e, a, source, 0, now, 0);
    var m1 := Run(e, [x]);
    InvUsable(m1);
    AddToFree(m1, b, source, 0, now, 0);
  }

  /** Two announcements reach a sound manager on which the index test of Check_ fails. */
  lemma IndexTestFails(a: Address, b: Address, source: NetAddr, now: int)
    requires a.service.ip != b.service.ip && a.service.ip < NEW_BUCKET_COUNT && b.service.ip < NEW_BUCKET_COUNT
    requires b.service.port != 0
    ensures Inv(Empty(false, ByIp()))
    ensures var m := Run(Empty(false, ByIp()), [OpAdd(a, source, 0, now, 0), OpAdd(b, source, 0, now, 0)]);
            Inv(m) && !CheckAddr(m) && !CheckPasses(m)
  {
    hide Inv, Run, CheckAddr, CheckPasses;
    TwoAdded(false, a, b, source, now);
    var m := Run(Empty(false, ByIp()), [OpAdd(a, source, 0, now, 0), OpAdd(b, source, 0, now, 0)]);
    CheckAddrExact(m);
    CheckExact(m);
  }

  /** One announcement, saved and loaded: the loaded index does not find the address. */
  lemma LoadedIndexFails(hashing: Hashing, a: Address, source: NetAddr, now: int, sum: nat)
    requires hashing.routable(a.service.ip) && a.service.port != 0
    ensures Inv(Empty(false, hashing))
    ensures var m := Run(Empty(false, hashing), [OpAdd(a, source, 0, now, 0)]);
            && AllKnown(m, [0]) && Find(m, a.service) == Some(0)
            && var r := Load(Save(m, [0], sum), false, {}, h => h, sum);
               r.Some? && !AddrOk(false, r.value.info, r.value.addr) && Find(r.value, a.service).None?
  {
    var e := Empty(false, hashing);
    EmptyInv(false, hashing);
    hide Inv, Add, Save, Load, NewOrder, TriedOrder, SameSlots, Persist, Loaded, Distinct;
    RunOne(e, OpAdd(a, source, 0, now, 0));
    InvUsable(e);
    AddToFree(e, a, source, 0, now, 0);
    var m := Run(e, [OpAdd(a, source, 0, now, 0)]);
    assert m.info.Keys == {0};
    assert Enumerates([0], m.info) by { OnlyZero(m.info); }
    MidOf(m);
    LoadInvertsSave(m, [0], sum, {});
    var all := NewOrder(m, [0]) + TriedOrder(m, [0]);
    var r := Load(Save(m, [0], sum), false, {}, h => h, sum);
    NotFound(m, r.value, all, a.service);
    LoadedIndexExact(m, r.value, all);
  }

  lemma MidOf(m: Manager)
    requires Inv(m)
    ensures Mid(m, {}, 0)
  {
  }

  lemma OnlyZero(info: map<int, Info>)
    requires info.Keys == {0}
    ensures Enumerates([0], info)
  {
    forall id ensures id in [0] <==> id in info {
      assert id in info <==> id in info.Keys;
    }
  }

  /** A loaded index that is keyed by the full service does not find an address by its key without the port. */
  lemma NotFound(m: Manager, m': Manager, all: seq<int>, s: Service)
    requires Renumbered(m, m', all) && !m.discriminatePorts && m.info.Keys == {0}
    requires m.info[0].service == s && s.port != 0
    ensures Find(m', s).None? && 0 in m'.info && m'.info[0].service.port != 0
  {
    hide SameSlots, Distinct;
    assert 0 in m.info;
    assert 0 in all;
    forall k | k in m'.info ensures m'.info[k].service == s {
      assert all[k] in m.info.Keys;
    }
  }

  // -------------------------------------------------------- pending collisions

  /** A pending collision: both addresses have the same tried slot, and the first waits for it. */
  lemma FirstWaits(discriminatePorts: bool, a: Address, b: Address, source: NetAddr, now: int)
    requires a.service.ip != b.service.ip && a.service.ip < NEW_BUCKET_COUNT && b.service.ip < NEW_BUCKET_COUNT
    ensures Inv(Empty(discriminatePorts, ByIp()))
    ensures Run(Empty(discriminatePorts, ByIp()),
                [OpAdd(a, source, 0, now, 0), OpAdd(b, source, 0, now, 0), OpGood(b.service, false, now),
                 OpGood(a.service, true, now)]).collisions == {0}
  {
    hide Inv, Apply, Good;
    var e := Empty(discriminatePorts, ByIp());
    var ops := [OpAdd(a, source, 0, now, 0), OpAdd(b, source, 0, now, 0)];
    var x, y := OpGood(b.service, false, now), OpGood(a.service, true, now);
    TwoAdded(discriminatePorts, a, b, source, now);
    var m2 := Run(e, ops);
    RunMore(e, ops, x);
    RunMore(e, ops + [x], y);
    assert ops + [x] + [y] == [ops[0], ops[1], x, y];
    var m3, m4 := Run(e, ops + [x]), Run(e, ops + [x] + [y]);
    ApplyGood(m2, x);
    ApplyGood(m3, y);
    FoundExactly(m2, 1);
    GoodToFree(m2, b.service, now);
    assert m3.info.Keys == {0, 1} && m3.info[0] == m2.info[0];
    FoundExactly(m3, 0);
    GoodStepKept(m2, x);
    GoodWaits(m3, a.service, now);
  }

  lemma ApplyGood(m: Manager, op: Operation)
    requires Inv(m) && op.OpGood?
    ensures Usable(m) && Apply(m, op) == Good(m, op.service, op.testBeforeEvict, op.time)
  {
    InvUsable(m);
  }

  lemma GoodStepKept(m: Manager, op: Operation)
    requires Inv(m)
    ensures Apply(m, op).hashing == m.hashing
  {
    ApplyKeeps(m, op);
    hide Apply, Inv;
  }

  lemma FoundExactly(m: Manager, id: int)
    requires Inv(m) && id in m.info
    ensures FindExact(m, m.info[id].service) == Some(id)
  {
    hide RandomOk, TriedOk, NewSlotsOk, RefsOk, NewIds, TriedIds;
  }

  /** Clear leaves the collision pending; the next announcement makes its id known, and SelectTriedCollision_ then adds
      an empty entry under id -1. */
  lemma ClearedCollisionAddsEntry(discriminatePorts: bool, key: Hashing, a: Address, b: Address, c: Address,
                                  source: NetAddr, now: int)
    requires a.service.ip != b.service.ip && a.service.ip < NEW_BUCKET_COUNT && b.service.ip < NEW_BUCKET_COUNT
    requires key.routable(c.service.ip)
    ensures Inv(Empty(discriminatePorts, ByIp()))
    ensures var m := Run(Empty(discriminatePorts, ByIp()),
                         [OpAdd(a, source, 0, now, 0), OpAdd(b, source, 0, now, 0), OpGood(b.service, false, now),
                          OpGood(a.service, true, now)]);
            var cleared := Empty(discriminatePorts, key).(collisions := m.collisions);
            && Usable(cleared)
            && var m' := Add(cleared, c, source, 0, now, 0).0;
               0 in m'.collisions && -1 !in m'.info && -1 in SelectTriedCollision(m', 0).0.info
  {
    hide Inv, Run, Add;
    FirstWaits(discriminatePorts, a, b, source, now);
    EmptyUsable(discriminatePorts, key, {0});
    AddToFree(Empty(discriminatePorts, key).(collisions := {0}), c, source, 0, now, 0);
  }

  // ----------------------------------------------------- dropped announcements

  lemma PlaceIds(m: Manager, id: int, source: NetAddr, now: int)
    requires Usable(m) && id in m.info
    ensures Place(m, id, source, now).idCount == m.idCount
  {
    hide IsTerrible, Hashing.NewSlot, ClearNew, Delete;
    ClearNewIds(m, SlotFrom(m, m.info[id].service, source));
    DeleteEffect(m, id);
  }

  lemma ClearNewIds(m: Manager, x: Slot)
    requires Usable(m)
    ensures ClearNew(m, x).idCount == m.idCount
  {
    hide Delete;
    if x in m.newTable {
      assert Usable(Unslot(m, x));
      DeleteEffect(Unslot(m, x), m.newTable[x]);
    }
  }

  /**
   Add_ reports a new address exactly when it is routable and unknown; it is unknown afterwards all the same exactly
   when its slot is held by an entry that is not terrible and has no other slot.
   */
  lemma AddReportsExact(m: Manager, a: Address, source: NetAddr, penalty: int, now: int, roll: nat)
    requires Inv(m)
    ensures Usable(m)
    ensures var (m', isNew), x := Add(m, a, source, penalty, now, roll), SlotFrom(m, a.service, source);
            && (isNew <==> m.hashing.routable(a.service.ip) && Find(m, a.service).None?)
            && (isNew && Find(m', a.service).None? <==>
                  && m.hashing.routable(a.service.ip) && Find(m, a.service).None?
                  && x in m.newTable && m.newTable[x] in m.info
                  && !IsTerrible(m.info[m.newTable[x]], now) && m.info[m.newTable[x]].refCount <= 1)
  {
    hide Inv, Usable, Announce, Reannounce, IsTerrible, Hashing.NewSlot, GoodStep;
    InvUsable(m);
    if m.hashing.routable(a.service.ip) && Find(m, a.service).None? {
      var p := if a.service.ip == source then 0 else penalty;
      AnnounceEffect(m, a, source, p, now);
      SlotsKnown(m);
      AddKeeps(m, a, source, penalty, now, roll);
      AnnounceIds(m, a, source, p, now);
      KnownAfter(m, Announce(m, a, source, p, now), a.service);
    }
  }

  lemma AnnounceIds(m: Manager, a: Address, source: NetAddr, penalty: int, now: int)
    requires Inv(m) && Find(m, a.service).None?
    ensures Usable(m) && Announce(m, a, source, penalty, now).idCount == m.idCount + 1
  {
    hide Inv, Usable, Place, Placeable;
    InvUsable(m);
    EnterKeeps(m, a, source, penalty);
    PlaceableUsable(Enter(m, a, source, penalty), m.idCount, {m.idCount}, 1);
    PlaceIds(Enter(m, a, source, penalty), m.idCount, source, now);
  }

  /** An address that was unknown is known afterwards exactly when the new id is. */
  lemma KnownAfter(m: Manager, m': Manager, s: Service)
    requires Inv(m) && GoodStep(m, m') && Find(m, s).None? && m'.idCount == m.idCount + 1
    requires m.idCount in m'.info ==> m'.info[m.idCount].service == s
    ensures Find(m', s).Some? <==> m.idCount in m'.info
  {
    hide RandomOk, TriedOk, NewSlotsOk, RefsOk, NewIds, TriedIds;
    forall k | k in m'.info && Key(m'.discriminatePorts, m'.info[k].service) == Key(m'.discriminatePorts, s)
      ensures k == m.idCount
    {
      assert k < m'.idCount;
    }
  }

  /** Two announcements for one slot: the second is reported as new and dropped. */
  lemma DroppedButReported(a: Address, b: Address, source: NetAddr, now: int)
    requires a.service.ip != b.service.ip && 0 < now < 0x1_0000_0000 && a.time == now
    ensures Inv(Empty(true, OneSlot()))
    ensures var m := Run(Empty(true, OneSlot()), [OpAdd(a, source, 0, now, 0)]);
            && Usable(m)
            && var (m', isNew) := Add(m, b, source, 0, now, 0);
               isNew && Find(m', b.service).None?
  {
    var e := Empty(true, OneSlot());
    EmptyInv(true, OneSlot());
    hide Inv, Add;
    RunOne(e, OpAdd(a, source, 0, now, 0));
    InvUsable(e);
    AddToFree(e, a, source, 0, now, 0);
    var m := Run(e, [OpAdd(a, source, 0, now, 0)]);
    AddReportsExact(m, b, source, 0, now, 0);
  }
}
