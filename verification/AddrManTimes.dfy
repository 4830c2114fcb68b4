/**
 The time stamps of the address manager over whole runs, and with them the
 whole of the debug check Check_: which of its tests every run passes, and
 exactly when the others pass.
 */
module AddrManTimes {
  import opened Options
  import opened AddrManModel
  import opened AddrManInvariant
  import opened AddrManEffects
  import opened AddrManRuns
  import Sets

  /** The time tests of Check_ on one entry (its results -1, -6 and -8). */
  predicate EntryTimes(i: Info) {
    (i.inTried ==> i.lastSuccess != 0) && i.lastTry >= 0 && i.lastSuccess >= 0
  }

  ghost predicate TimesOk(info: map<int, Info>) { forall id | id in info :: EntryTimes(info[id]) }

  /** No entry is new, no time has changed, and at most the given entry has become tried. */
  ghost predicate Aged(info: map<int, Info>, info': map<int, Info>, id: int) {
    forall k | k in info' ::
      && k in info && info'[k].lastTry == info[k].lastTry && info'[k].lastSuccess == info[k].lastSuccess
      && (info'[k].inTried ==> info[k].inTried || k == id)
  }

  lemma AgedTrans(a: map<int, Info>, b: map<int, Info>, c: map<int, Info>, id: int)
    requires Aged(a, b, id) && Aged(b, c, id)
    ensures Aged(a, c, id)
  {
  }

  lemma AgedTimes(info: map<int, Info>, info': map<int, Info>, id: int)
    requires TimesOk(info) && Aged(info, info', id)
    requires id in info ==> info[id].lastSuccess != 0
    ensures TimesOk(info')
  {
    forall k | k in info' ensures EntryTimes(info'[k]) {
      assert EntryTimes(info[k]);
    }
  }

  // ------------------------------------------------------------------ the steps

  lemma ClearNewAged(m: Manager, x: Slot, id: int)
    requires Usable(m)
    ensures Aged(m.info, ClearNew(m, x).info, id)
  {
    hide Delete;
    if x in m.newTable {
      var u := Unslot(m, x);
      assert Usable(u);
      if u.info[m.newTable[x]].refCount == 0 {
        DeleteEffect(u, m.newTable[x]);
      }
    }
  }

  lemma PutNewAged(m: Manager, x: Slot, k: int, id: int)
    requires k in m.info
    ensures Aged(m.info, PutNew(m, x, k).info, id)
  {
  }

  lemma EvictAged(m: Manager, x: Slot, id: int)
    requires Usable(m) && x in m.triedTable
    ensures Aged(m.info, Evict(m, x).info, id)
  {
    hide ClearNew, Aged;
    var o := m.triedTable[x];
    var w := Untry(m, x);
    assert Usable(w);
    var y := SourceSlot(m, o);
    UntryAged(m, x, id);
    ClearNewAged(w, y, id);
    var c := ClearNew(w, y);
    AgedTrans(m.info, w.info, c.info, id);
    if o in c.info {
      PutNewAged(c, y, o, id);
      AgedTrans(m.info, c.info, PutNew(c, y, o).info, id);
    }
  }

  lemma UntryAged(m: Manager, x: Slot, id: int)
    requires x in m.triedTable && m.triedTable[x] in m.info
    ensures Aged(m.info, Untry(m, x).info, id)
  {
  }

  lemma RemoveFromNewAged(m: Manager, id: int)
    requires Usable(m) && id in m.info
    ensures Aged(m.info, RemoveFromNew(m, id).info, id) && Usable(AddNew(RemoveFromNew(m, id), -1))
  {
    hide SlotsOf;
  }

  lemma MakeTriedAged(m: Manager, id: int)
    requires Usable(m) && id in m.info
    ensures Aged(m.info, MakeTried(m, id).info, id)
  {
    hide Usable, Evict, Aged, RemoveFromNew, Hashing.TriedSlot;
    RemoveFromNewAged(m, id);
    var w := AddNew(RemoveFromNew(m, id), -1);
    var x := m.hashing.TriedSlot(m.info[id].service);
    var e := if x in w.triedTable then Evict(w, x) else w;
    if x in w.triedTable {
      EvictAged(w, x, id);
      AgedTrans(m.info, w.info, e.info, id);
    }
    if id in e.info {
      PutTriedAged(e, x, id);
      AgedTrans(m.info, e.info, PutTried(e, x, id).info, id);
    }
  }

  lemma PutTriedAged(m: Manager, x: Slot, id: int)
    requires id in m.info
    ensures Aged(m.info, PutTried(m, x, id).info, id)
  {
  }

  lemma SwapRandomAged(m: Manager, i: nat, j: nat, id: int)
    requires i < |m.random| && j < |m.random| && RandomIdsKnown(m)
    ensures Aged(m.info, SwapRandom(m, i, j).info, id)
    ensures RandomIdsKnown(SwapRandom(m, i, j)) && |SwapRandom(m, i, j).random| == |m.random|
  {
    SwapRandomEffect(m, i, j);
    assert RandomIdsKnown(SwapRandom(m, i, j));
    hide SwapRandom;
  }

  lemma DeleteAged(m: Manager, k: int, id: int)
    requires Usable(m) && k in m.info
    ensures Aged(m.info, Delete(m, k).info, id)
  {
    hide Delete;
    DeleteEffect(m, k);
  }

  lemma PlaceAged(m: Manager, k: int, source: NetAddr, now: int, id: int)
    requires Usable(m) && k in m.info
    ensures Aged(m.info, Place(m, k, source, now).info, id)
  {
    hide ClearNew, IsTerrible, Delete, Aged;
    AgedRefl(m.info, id);
    var x := SlotFrom(m, m.info[k].service, source);
    ClearNewAged(m, x, id);
    DeleteAged(m, k, id);
    var c := ClearNew(m, x);
    if k in c.info {
      PutNewAged(c, x, k, id);
      AgedTrans(m.info, c.info, PutNew(c, x, k).info, id);
    }
  }

  lemma AgedRefl(info: map<int, Info>, id: int)
    ensures Aged(info, info, id)
  {
  }

  // ------------------------------------------------------------- the operations

  /** Good_ keeps the time tests exactly when it is given a positive time, finds nothing, or finds an entry that
      must wait and is given time 0. */
  lemma GoodTimesExact(m: Manager, s: Service, test: bool, time: int)
    requires Inv(m) && TimesOk(m.info)
    ensures Usable(m)
    ensures var f := FindExact(m, s);
            TimesOk(Good(m, s, test, time).info) <==>
              || f.None?
              || time > 0
              || (time == 0 && test && f.value in m.info && !m.info[f.value].inTried
                  && m.hashing.TriedSlot(s) in m.triedTable)
  {
    hide Mid, Usable, MakeTried, CollisionsOk, Later, InSomeBucket, Hashing.TriedSlot, TimesOk;
    InvUsable(m);
    FindExactKnown(m, s);
    var f := FindExact(m, s);
    if f.Some? {
      var id := f.value;
      var i := m.info[id].(lastSuccess := time, lastTry := time, attempts := 0);
      TouchStep(m, id, i, time);
      var m1 := SetInfo(m, id, i).(lastGood := time);
      InvUsable(m1);
      TimesSet(m.info, id, i);
      if !m.info[id].inTried {
        UntriedInSomeBucket(m1, id);
        if !(test && m.hashing.TriedSlot(s) in m.triedTable) {
          MakeTriedKeepsEntry(m1, id);
          MakeTriedAged(m1, id);
          PromotedTimes(m1.info, MakeTried(m1, id).info, id);
        }
      }
    }
  }

  lemma TimesSet(info: map<int, Info>, id: int, i: Info)
    requires TimesOk(info)
    ensures TimesOk(info[id := i]) <==> EntryTimes(i)
  {
    var info' := info[id := i];
    if EntryTimes(i) {
      forall k | k in info' ensures EntryTimes(info'[k]) {
      }
    } else {
      assert !EntryTimes(info'[id]);
    }
  }

  lemma PromotedTimes(info: map<int, Info>, info': map<int, Info>, id: int)
    requires Aged(info, info', id) && id in info' && info'[id].inTried && info'[id].lastTry == info'[id].lastSuccess
    requires info'[id].lastSuccess >= 0 ==> TimesOk(info)
    ensures TimesOk(info') <==> info'[id].lastSuccess > 0
  {
    if info'[id].lastSuccess > 0 {
      AgedTimes(info, info', id);
    } else {
      assert !EntryTimes(info'[id]);
    }
  }

  /** Attempt_ keeps the time tests exactly when it is given a time that is not negative, or finds nothing. */
  lemma AttemptTimesExact(m: Manager, s: Service, countFailure: bool, time: int)
    requires TimesOk(m.info)
    ensures TimesOk(Attempt(m, s, countFailure, time).info) <==> FindExact(m, s).None? || time >= 0
  {
    hide TimesOk;
    var f := FindExact(m, s);
    if f.Some? {
      var i := m.info[f.value].(lastTry := time);
      var j := if countFailure && i.lastCountAttempt < m.lastGood
               then i.(lastCountAttempt := time, attempts := i.attempts + 1) else i;
      TimesOf(m.info, f.value);
      TimesSet(m.info, f.value, j);
    }
  }

  lemma TimesOf(info: map<int, Info>, id: int)
    requires TimesOk(info) && id in info
    ensures EntryTimes(info[id])
  {
  }

  lemma AddTimes(m: Manager, a: Address, source: NetAddr, timePenalty: int, now: int, roll: nat)
    requires Inv(m) && TimesOk(m.info)
    ensures Usable(m) && TimesOk(Add(m, a, source, timePenalty, now, roll).0.info)
  {
    hide Mid, Usable, Place, CollisionsOk, TimesOk, Aged, Refreshed;
    InvUsable(m);
    var penalty := if a.service.ip == source then 0 else timePenalty;
    var f := Find(m, a.service);
    if f.Some? {
      ReannounceTimes(m, f.value, a, source, penalty, now, roll);
    } else {
      EnterKeeps(m, a, source, penalty);
      EnterTimes(m, a, source, penalty);
      var m1 := Enter(m, a, source, penalty);
      PlaceableUsable(m1, m.idCount, {m.idCount}, 1);
      PlaceAged(m1, m.idCount, source, now, -1);
      NotMinusOne(m1, {m.idCount}, 1);
      AgedTimes(m1.info, Place(m1, m.idCount, source, now).info, -1);
    }
  }

  lemma PlaceableUsable(m: Manager, id: int, loose: set<int>, d: int)
    requires Placeable(m, id, loose, d)
    ensures Usable(m) && id in m.info && Mid(m, loose, d)
  {
    MidUsable(m, loose, d);
  }

  lemma NotMinusOne(m: Manager, loose: set<int>, d: int)
    requires Mid(m, loose, d)
    ensures -1 !in m.info
  {
    hide RandomOk, AddrOk, TriedOk, NewSlotsOk, RefsOk, NewIds, TriedIds;
  }

  lemma ReannounceTimes(m: Manager, id: int, a: Address, source: NetAddr, penalty: int, now: int, roll: nat)
    requires Inv(m) && TimesOk(m.info) && id in m.info
    ensures Usable(m) && TimesOk(Reannounce(m, id, a, source, penalty, now, roll).info)
  {
    hide Mid, Usable, Place, CollisionsOk, TimesOk, Aged;
    InvUsable(m);
    var i := Refreshed(m.info[id], a, penalty, now);
    TouchStep(m, id, i, m.lastGood);
    var m1 := SetInfo(m, id, i);
    assert m1 == SetInfo(m, id, i).(lastGood := m.lastGood);
    InvUsable(m1);
    TimesOf(m.info, id);
    TimesSet(m.info, id, i);
    PlaceAged(m1, id, source, now, -1);
    NotMinusOne(m1, {}, 0);
    AgedTimes(m1.info, Place(m1, id, source, now).info, -1);
  }

  lemma EnterTimes(m: Manager, a: Address, source: NetAddr, penalty: int)
    requires TimesOk(m.info)
    ensures TimesOk(Enter(m, a, source, penalty).info)
  {
    var i := Enter(m, a, source, penalty).info[m.idCount];
    assert Enter(m, a, source, penalty).info == m.info[m.idCount := i];
    TimesSet(m.info, m.idCount, i);
  }

  lemma TouchTimes(m: Manager, s: Service, time: int, services: set<nat>)
    requires TimesOk(m.info)
    ensures TimesOk(Connected(m, s, time).info) && TimesOk(SetServices(m, s, services).info)
  {
    hide TimesOk, ToU32;
    var f := FindExact(m, s);
    if f.Some? {
      TimesOf(m.info, f.value);
      TimesSet(m.info, f.value, m.info[f.value].(time := ToU32(time)));
      TimesSet(m.info, f.value, m.info[f.value].(services := services));
    }
  }

  lemma {:induction false} GetAddrTimes(m: Manager, n: nat, picked: seq<int>, draw: nat -> nat, now: int)
    requires RandomIdsKnown(m) && n <= |m.random| && TimesOk(m.info) && -1 !in m.info
    ensures TimesOk(GetAddrFrom(m, n, picked, draw, now).0.info)
    decreases |m.random| - n
  {
    hide IsTerrible, SwapRandom, TimesOk, DrawFrom, GetAddrLimit;
    if n < |m.random| && |picked| < GetAddrLimit(|m.random|) {
      GetAddrRound(m, n, picked, draw, now);
      var j := DrawFrom(n, |m.random|, draw);
      SwapRandomAged(m, n, j, -1);
      var w := SwapRandom(m, n, j);
      AgedTimes(m.info, w.info, -1);
      GetAddrTimes(w, n + 1, KeepAt(w, n, picked, now), draw, now);
    }
  }

  lemma ResolveOneTimes(m: Manager, id: int, clock: Clock)
    requires Inv(m) && TimesOk(m.info) && forall k :: clock(k) > 0
    ensures Usable(m) && TimesOk(ResolveOne(m, id, clock).info)
  {
    hide Inv, Good, Usable, Hashing.TriedSlot, TimesOk;
    InvUsable(m);
    if id in m.info {
      GoodTimesExact(m, m.info[id].service, false, clock(0));
      GoodTimesExact(m, m.info[id].service, false, clock(3));
    }
  }

  lemma {:induction false} ResolveTimes(m: Manager, pending: set<int>, clock: int -> Clock)
    requires Inv(m) && TimesOk(m.info) && forall id, k :: clock(id)(k) > 0
    ensures TimesOk(ResolveFrom(m, pending, clock).info)
    decreases |pending|
  {
    hide Inv, ResolveOne, GoodStep, TimesOk;
    if pending != {} {
      var id := Sets.Least(pending);
      ResolveOneKeeps(m, id, clock(id));
      ResolveOneTimes(m, id, clock(id));
      GoodStepInv(m, ResolveOne(m, id, clock(id)));
      ResolveTimes(ResolveOne(m, id, clock(id)), pending - {id}, clock);
    }
  }

  // ----------------------------------------------------------------------- runs

  /** The times given to an operation: of a success positive, of an attempt not negative. */
  ghost predicate Timed(op: Operation) {
    match op
    case OpGood(_, _, time) => time > 0
    case OpAttempt(_, _, time) => time >= 0
    case OpResolveCollisions(clock) => forall id, k :: clock(id)(k) > 0
    case _ => true
  }

  lemma ApplyTimes(m: Manager, op: Operation)
    requires Inv(m) && TimesOk(m.info) && Timed(op)
    ensures TimesOk(Apply(m, op).info)
  {
    hide Inv, TimesOk, Add, Good, Attempt, Connected, SetServices, ResolveFrom, GetAddrFrom, Usable;
    InvUsable(m);
    match op {
      case OpAdd(a, source, penalty, now, roll) => AddTimes(m, a, source, penalty, now, roll);
      case OpGood(s, test, time) => GoodTimesExact(m, s, test, time);
      case OpAttempt(s, count, time) => AttemptTimesExact(m, s, count, time);
      case OpConnected(s, time) => TouchTimes(m, s, time, {});
      case OpSetServices(s, services) => TouchTimes(m, s, 0, services);
      case OpGetAddr(draw, now) => KnownNotMinusOne(m); GetAddrTimes(m, 0, [], draw, now);
      case OpResolveCollisions(clock) => ResolveTimes(m, m.collisions, clock);
      case OpSelectTriedCollision(pick) => if pick in m.collisions { SelectTriedCollisionKeeps(m, pick); }
    }
  }

  lemma KnownNotMinusOne(m: Manager)
    requires Inv(m)
    ensures -1 !in m.info && RandomIdsKnown(m)
  {
    NotMinusOne(m, {}, 0);
    RandomKnown(m);
  }

  /** After every run of a new manager that is given proper times, the time tests of Check_ pass. */
  lemma {:induction false} RunsKeepTimes(m: Manager, ops: seq<Operation>)
    requires Inv(m) && TimesOk(m.info) && forall k | 0 <= k < |ops| :: Timed(ops[k])
    ensures TimesOk(Run(m, ops).info)
    decreases |ops|
  {
    hide Inv, TimesOk, Timed, Apply;
    if ops != [] {
      var w := Run(m, ops[..|ops| - 1]);
      RunsKeepTimes(m, ops[..|ops| - 1]);
      ApplyTimes(w, ops[|ops| - 1]);
    }
  }

  // --------------------------------------------------------------- all of Check_

  /** The scan of the tried table (-11, -13, -17, -18): it finds each tried id once, at its slot, and nothing else. */
  ghost predicate CheckTriedTable(m: Manager) {
    && (forall x | x in m.triedTable ::
          m.triedTable[x] in TriedIds(m.info) && x == m.hashing.TriedSlot(m.info[m.triedTable[x]].service))
    && (forall x, y | x in m.triedTable && y in m.triedTable && m.triedTable[x] == m.triedTable[y] :: x == y)
    && (forall id | id in TriedIds(m.info) :: exists x :: x in m.triedTable && m.triedTable[x] == id)
  }

  /** The scan of the new table (-12, -15, -19): it finds each new id as often as its count says, and nothing else. */
  ghost predicate CheckNewTable(m: Manager) {
    && (forall x | x in m.newTable ::
          m.newTable[x] in NewIds(m.info) && x == m.hashing.NewSlot(x.bucket, m.info[m.newTable[x]].service))
    && (forall id | id in NewIds(m.info) :: |SlotsOf(m.newTable, id)| == m.info[id].refCount)
  }

  /** The tests on one entry but those of times and index (-2, -3, -4, -14). */
  ghost predicate CheckEntry(m: Manager, id: int)
    requires id in m.info
  {
    var i := m.info[id];
    && (if i.inTried then i.refCount == 0 else 0 < i.refCount <= NEW_BUCKETS_PER_ADDRESS)
    && 0 <= i.randomPos < |m.random| && m.random[i.randomPos] == id
  }

  /** Check_ finds nothing wrong; its test -16, that the key is not null, is not part of the model. */
  ghost predicate CheckPasses(m: Manager) {
    && |m.random| == m.nTried + m.nNew
    && (forall id | id in m.info :: CheckEntry(m, id) && EntryTimes(m.info[id]))
    && CheckAddr(m)
    && |TriedIds(m.info)| == m.nTried && |NewIds(m.info)| == m.nNew
    && CheckTriedTable(m) && CheckNewTable(m)
  }

  lemma TriedTablePasses(m: Manager)
    requires Inv(m)
    ensures CheckTriedTable(m)
  {
    hide RandomOk, AddrOk, NewSlotsOk, RefsOk, Hashing.TriedSlot;
    forall id | id in TriedIds(m.info) ensures exists x :: x in m.triedTable && m.triedTable[x] == id {
      assert m.hashing.TriedSlot(m.info[id].service) in m.triedTable;
    }
  }

  lemma NewTablePasses(m: Manager)
    requires Inv(m)
    ensures CheckNewTable(m)
  {
    hide RandomOk, AddrOk, TriedOk, TriedIds, SlotsOf, Hashing.NewSlot;
  }

  lemma EntryPasses(m: Manager, id: int)
    requires Inv(m) && id in m.info
    ensures CheckEntry(m, id)
  {
    hide AddrOk, TriedOk, TriedIds, NewIds;
    if m.info[id].inTried {
      TriedHasNoSlots(m.hashing, m.info, m.newTable, id);
    }
  }

  lemma CountsPass(m: Manager)
    requires Inv(m)
    ensures |TriedIds(m.info)| == m.nTried && |NewIds(m.info)| == m.nNew
  {
    hide RandomOk, AddrOk, TriedOk, NewSlotsOk, RefsOk;
    assert NewIds(m.info) - {} == NewIds(m.info);
  }

  /** Under the invariant Check_ passes exactly when its time tests and its index test do. */
  lemma CheckExact(m: Manager)
    requires Inv(m)
    ensures CheckPasses(m) <==> TimesOk(m.info) && CheckAddr(m)
  {
    hide Inv, CheckEntry, CheckAddr, CheckTriedTable, CheckNewTable, TriedIds, NewIds, EntryTimes;
    SizeIsSum(m);
    CountsPass(m);
    TriedTablePasses(m);
    NewTablePasses(m);
    forall id | id in m.info ensures CheckEntry(m, id) {
      EntryPasses(m, id);
    }
  }

  /** After every run of a new manager with proper times Check_ passes exactly when ports are discriminated or every
      entry but the one with id 0 has port 0. */
  lemma RunsPassCheck(discriminatePorts: bool, hashing: Hashing, ops: seq<Operation>)
    requires forall k | 0 <= k < |ops| :: Timed(ops[k])
    ensures Inv(Empty(discriminatePorts, hashing))
    ensures var m := Run(Empty(discriminatePorts, hashing), ops);
            CheckPasses(m) <==>
              (m.discriminatePorts || forall id | id in m.info :: id == 0 || m.info[id].service.port == 0)
  {
    EmptyInv(discriminatePorts, hashing);
    assert TimesOk(Empty(discriminatePorts, hashing).info);
    hide Inv, Empty, TimesOk, CheckPasses, CheckAddr, Timed, Run;
    RunsKeepTimes(Empty(discriminatePorts, hashing), ops);
    var m := Run(Empty(discriminatePorts, hashing), ops);
    CheckExact(m);
    CheckAddrExact(m);
  }
}
