/**
 The address manager as the program keeps it: maps, a vector, two bucket tables
 and counters that every operation updates in place.  Each method is proved to
 do what its function in module AddrManModel says, and each assertion of the
 program is proved to hold where the program makes it.
 */
module AddrMan {
  import opened Options
  import opened AddrManModel
  import opened AddrManInvariant
  import opened AddrManRuns
  import Model = AddrManModel
  import Runs = AddrManRuns
  import Sets

  /** The occupied cells of a bucket table. */
  ghost function Table(a: array2<int>): map<Slot, int>
    reads a
  {
    map b: nat, p: nat | b < a.Length0 && p < a.Length1 && a[b, p] != -1 :: Slot(b, p) := a[b, p]
  }

  method SetCell(a: array2<int>, b: nat, p: nat, v: int)
    requires b < a.Length0 && p < a.Length1
    modifies a
    ensures Table(a) == if v == -1 then old(Table(a)) - {Slot(b, p)} else old(Table(a))[Slot(b, p) := v]
  {
    a[b, p] := v;
  }

  lemma CellOf(a: array2<int>, b: nat, p: nat)
    requires b < a.Length0 && p < a.Length1
    ensures a[b, p] == -1 <==> Slot(b, p) !in Table(a)
    ensures a[b, p] != -1 ==> Table(a)[Slot(b, p)] == a[b, p]
  {
  }

  class CAddrMan {
    const discriminatePorts: bool
    var hashing: Hashing
    var idCount: nat
    var mapInfo: map<int, Info>
    var mapAddr: map<Service, int>
    var vRandom: seq<int>
    var nTried: int
    const vvTried: array2<int>
    var nNew: int
    const vvNew: array2<int>
    var lastGood: int
    var collisions: set<int>

    ghost predicate Shape()
    {
      && vvNew.Length0 == NEW_BUCKET_COUNT && vvNew.Length1 == BUCKET_SIZE
      && vvTried.Length0 == TRIED_BUCKET_COUNT && vvTried.Length1 == BUCKET_SIZE
      && vvNew != vvTried
    }

    /** The manager as a value. */
    ghost function Abs(): Manager
      reads this, vvNew, vvTried
    {
      Manager(discriminatePorts, hashing, idCount, mapInfo, mapAddr, vRandom, nTried, Table(vvTried),
              nNew, Table(vvNew), lastGood, collisions)
    }

    constructor (discriminatePorts: bool, hashing: Hashing)
      ensures Shape() && Abs() == Empty(discriminatePorts, hashing) && fresh(vvNew) && fresh(vvTried)
    {
      this.discriminatePorts, this.hashing := discriminatePorts, hashing;
      idCount, mapInfo, mapAddr, vRandom := 0, map[], map[], [];
      nTried, nNew, lastGood, collisions := 0, 0, 1, {};
      vvTried := new int[TRIED_BUCKET_COUNT, BUCKET_SIZE]((i, j) => -1);
      vvNew := new int[NEW_BUCKET_COUNT, BUCKET_SIZE]((i, j) => -1);
      new;
      assert Table(vvNew) == map[];
      assert Table(vvTried) == map[];
    }

    method Find(s: Service) returns (found: bool, id: int)
      ensures found <==> Model.Find(Abs(), s).Some?
      ensures found ==> Model.Find(Abs(), s) == Some(id) && id in mapInfo
    {
      var k := Key(discriminatePorts, s);
      if k !in mapAddr {
        return false, -1;
      }
      id := mapAddr[k];
      found := id in mapInfo;
    }

    method Create(a: Address, source: NetAddr) returns (id: int)
      modifies this
      ensures Abs() == Model.Create(old(Abs()), a, source) && id == old(idCount)
    {
      id := idCount;
      idCount := idCount + 1;
      mapInfo := mapInfo[id := NewInfo(a, source)];
      mapAddr := mapAddr[Key(discriminatePorts, a.service) := id];
      mapInfo := mapInfo[id := mapInfo[id].(randomPos := |vRandom|)];
      vRandom := vRandom + [id];
    }

    method SwapRandom(i: nat, j: nat)
      requires i < |vRandom| && j < |vRandom| && RandomIdsKnown(Abs())
      modifies this
      ensures Abs() == Model.SwapRandom(old(Abs()), i, j)
    {
      if i == j {
        return;
      }
      var a, b := vRandom[i], vRandom[j];
      assert a in mapInfo && b in mapInfo;
      mapInfo := mapInfo[a := mapInfo[a].(randomPos := j)];
      mapInfo := mapInfo[b := mapInfo[b].(randomPos := i)];
      vRandom := vRandom[i := b][j := a];
    }

    method Delete(id: int)
      requires id in mapInfo && !mapInfo[id].inTried && mapInfo[id].refCount == 0
      requires 0 <= mapInfo[id].randomPos < |vRandom| && RandomIdsKnown(Abs())
      modifies this
      ensures Abs() == Model.Delete(old(Abs()), id)
    {
      ghost var m := Abs();
      hide Table, Model.SwapRandom;
      var k := Key(discriminatePorts, mapInfo[id].service);
      SwapRandomEffect(m, mapInfo[id].randomPos, |vRandom| - 1);
      SwapRandom(mapInfo[id].randomPos, |vRandom| - 1);
      vRandom := vRandom[..|vRandom| - 1];
      mapAddr := mapAddr - {k};
      mapInfo := mapInfo - {id};
      nNew := nNew - 1;
    }

    method ClearNew(b: nat, p: nat, ghost loose: set<int>, ghost d: int)
      requires Shape() && b < NEW_BUCKET_COUNT && p < BUCKET_SIZE
      requires Mid(Abs(), loose, d)
      modifies this, vvNew
      ensures old(Usable(Abs()))
      ensures Abs() == Model.ClearNew(old(Abs()), Slot(b, p))
    {
      ghost var m := Abs();
      hide Mid, Model.Delete;
      MidUsable(m, loose, d);
      CellOf(vvNew, b, p);
      if vvNew[b, p] != -1 {
        var id := vvNew[b, p];
        hide Table;
        UnslotKeeps(m, Slot(b, p), loose, d);
        assert mapInfo[id].refCount > 0;
        mapInfo := mapInfo[id := mapInfo[id].(refCount := mapInfo[id].refCount - 1)];
        SetCell(vvNew, b, p, -1);
        assert Abs() == Unslot(m, Slot(b, p));
        if mapInfo[id].refCount == 0 {
          LooseKnown(Abs(), loose + {id}, d + 1, id);
          Delete(id);
        }
      }
    }
  
    /** One round of the loop of MakeTried over all new buckets. */
    method RemoveFromBucket(id: int, bucket: nat, ghost m: Manager)
      requires Shape() && bucket < NEW_BUCKET_COUNT && id in m.info && id >= 0
      requires NewSlotsOk(m.hashing, m.info, m.newTable)
      requires Abs() == Removed(m, id, CellsBelow(m.newTable, id, bucket))
      modifies this, vvNew
      ensures Abs() == Removed(m, id, CellsBelow(m.newTable, id, bucket + 1))
    {
      hide Table, CellsBelow, NewSlotsOk, Removed;
      BucketStep(m, id, bucket);
      var pos := hashing.Position(true, bucket, mapInfo[id].service);
      CellOf(vvNew, bucket, pos);
      if vvNew[bucket, pos] == id {
        SetCell(vvNew, bucket, pos, -1);
        mapInfo := mapInfo[id := mapInfo[id].(refCount := mapInfo[id].refCount - 1)];
      }
    }

    /** The loop of MakeTried over all new buckets. */
    method RemoveFromNew(id: int)
      requires Shape() && Mid(Abs(), {}, 0) && id in mapInfo && !mapInfo[id].inTried
      modifies this, vvNew
      ensures Abs() == Model.RemoveFromNew(old(Abs()), id)
    {
      ghost var m := Abs();
      hide Mid, Table, NewSlotsOk, Removed, CellsBelow, Model.RemoveFromNew;
      NewSlotsOf(m, {}, 0);
      IdBelow(m, {}, 0, id);
      NoCells(m, id);
      var bucket: nat := 0;
      while bucket < NEW_BUCKET_COUNT
        invariant bucket <= NEW_BUCKET_COUNT
        invariant Abs() == Removed(m, id, CellsBelow(m.newTable, id, bucket))
      {
        RemoveFromBucket(id, bucket, m);
        bucket := bucket + 1;
      }
      AllCells(m, id);
    }
  
    /** Moves the occupant of a tried cell back to the new table. */
    method Evict(b: nat, p: nat, ghost loose: set<int>, ghost d: int)
      requires Shape() && b < TRIED_BUCKET_COUNT && p < BUCKET_SIZE && vvTried[b, p] != -1
      requires Mid(Abs(), loose, d)
      modifies this, vvNew, vvTried
      ensures old(Usable(Abs()) && Slot(b, p) in Abs().triedTable)
      ensures Abs() == Model.Evict(old(Abs()), Slot(b, p))
    {
      ghost var m := Abs();
      hide Mid, Table, Usable, Model.ClearNew;
      CellOf(vvTried, b, p);
      EvictKeeps(m, Slot(b, p), loose, d);
      EvictedUsable(m, Slot(b, p), loose, d);
      var id := vvTried[b, p];
      TakeFromTried(b, p, id);
      UntryKeeps(m, Slot(b, p), loose, d);
      var bucket := hashing.NewBucket(mapInfo[id].service, mapInfo[id].source);
      var pos := hashing.Position(true, bucket, mapInfo[id].service);
      ClearNewKeeps(Abs(), Slot(bucket, pos), loose + {id}, d);
      ClearNew(bucket, pos, loose + {id}, d);
      CellOf(vvNew, bucket, pos);
      assert vvNew[bucket, pos] == -1;
      LooseKnown(Abs(), loose + {id}, d, id);
      mapInfo := mapInfo[id := mapInfo[id].(refCount := 1)];
      SetCell(vvNew, bucket, pos, id);
      nNew := nNew + 1;
    }

    /** Takes an id out of its tried cell. */
    method TakeFromTried(b: nat, p: nat, id: int)
      requires Shape() && b < TRIED_BUCKET_COUNT && p < BUCKET_SIZE && vvTried[b, p] == id != -1
      requires id in mapInfo
      modifies this, vvTried
      ensures old(Slot(b, p) in Abs().triedTable && Abs().triedTable[Slot(b, p)] == id)
      ensures Abs() == Untry(old(Abs()), Slot(b, p))
    {
      hide Table;
      CellOf(vvTried, b, p);
      mapInfo := mapInfo[id := mapInfo[id].(inTried := false)];
      SetCell(vvTried, b, p, -1);
      nTried := nTried - 1;
    }
  
    /** Moves an entry from the new table to its slot in the tried table. */
    method MakeTried(id: int)
      requires Shape() && Mid(Abs(), {}, 0) && id in mapInfo && !mapInfo[id].inTried
      modifies this, vvNew, vvTried
      ensures old(Usable(Abs()))
      ensures Abs() == Model.MakeTried(old(Abs()), id)
    {
      ghost var m := Abs();
      hide Mid, Table, Usable, Model.RemoveFromNew, Model.Evict;
      MakeTriedSplit(m, id);
      RemovedState(m, id);
      var s := mapInfo[id].service;
      RemoveFromNew(id);
      nNew := nNew - 1;
      assert mapInfo[id].refCount == 0;
      var bucket := hashing.TriedBucket(s);
      var pos := hashing.Position(false, bucket, s);
      CellOf(vvTried, bucket, pos);
      if vvTried[bucket, pos] != -1 {
        Evict(bucket, pos, {id}, 0);
      }
      ReadyLater(m, id);
      CellOf(vvTried, bucket, pos);
      assert Abs() == ReadyToTry(m, id);
      assert vvTried[bucket, pos] == -1;
      PutInTried(bucket, pos, id);
    }

    /** Enters an id into an empty tried cell. */
    method PutInTried(b: nat, p: nat, id: int)
      requires Shape() && b < TRIED_BUCKET_COUNT && p < BUCKET_SIZE && id in mapInfo && id != -1
      modifies this, vvTried
      ensures Abs() == PutTried(old(Abs()), Slot(b, p), id)
    {
      hide Table;
      SetCell(vvTried, b, p, id);
      nTried := nTried + 1;
      mapInfo := mapInfo[id := mapInfo[id].(inTried := true)];
    }

    /** Looks for a new bucket the entry is in, from a random one on. */
    method FindBucket(id: int, start: nat) returns (bucket: int)
      requires Shape() && id in mapInfo && id >= 0
      ensures bucket == -1 <==> !InSomeBucket(Abs(), id)
    {
      bucket := -1;
      var n: nat := 0;
      while n < NEW_BUCKET_COUNT
        invariant n <= NEW_BUCKET_COUNT
        invariant forall k: nat | k < n :: !InBucket(Abs(), id, Wrap(k, start))
      {
        var b := Wrap(n, start);
        var pos := hashing.Position(true, b, mapInfo[id].service);
        CellOf(vvNew, b, pos);
        if vvNew[b, pos] == id {
          assert InBucket(Abs(), id, b);
          return b;
        }
        n := n + 1;
      }
      forall b: nat | b < NEW_BUCKET_COUNT ensures !InBucket(Abs(), id, b) {
        var k := WrapAround(b, start);
      }
    }

    /** The part of Good_ after the entry is found and refreshed. */
    method Promote(id: int, testBeforeEvict: bool, start: nat)
      requires Shape() && Inv(Abs()) && id in mapInfo
      modifies this, vvNew, vvTried
      ensures old(Usable(Abs()))
      ensures Abs() == Model.Promote(old(Abs()), id, testBeforeEvict)
    {
      hide Mid, Table, Usable, CollisionsOk, InSomeBucket, Model.MakeTried;
      InvUsable(Abs());
      IdBelow(Abs(), {}, 0, id);
      if mapInfo[id].inTried {
        return;
      }
      var bucket := FindBucket(id, start);
      if bucket == -1 {
        return;
      }
      var s := mapInfo[id].service;
      var b := hashing.TriedBucket(s);
      var p := hashing.Position(false, b, s);
      CellOf(vvTried, b, p);
      if testBeforeEvict && vvTried[b, p] != -1 {
        if |collisions| < SET_TRIED_COLLISION_SIZE {
          collisions := collisions + {id};
        }
      } else {
        MakeTried(id);
      }
    }

    /** A successful connection to an address. */
    method Good(s: Service, testBeforeEvict: bool, time: int, start: nat)
      requires Shape() && Inv(Abs())
      modifies this, vvNew, vvTried
      ensures old(Usable(Abs()))
      ensures Abs() == Model.Good(old(Abs()), s, testBeforeEvict, time)
      ensures GoodStep(old(Abs()), Abs())
    {
      ghost var m := Abs();
      hide Mid, Table, Usable, CollisionsOk, Model.Promote, Later;
      GoodKeeps(m, s, testBeforeEvict, time);
      lastGood := time;
      var found, id := Find(s);
      if !found || mapInfo[id].service != s {
        return;
      }
      var i := mapInfo[id].(lastSuccess := time, lastTry := time, attempts := 0);
      TouchStep(m, id, i, time);
      mapInfo := mapInfo[id := i];
      Promote(id, testBeforeEvict, start);
    }
  
    /** The part of Add_ that tries to give an entry the slot its source selects. */
    method Place(id: int, source: NetAddr, now: int, ghost loose: set<int>, ghost d: int)
      requires Shape() && Placeable(Abs(), id, loose, d) && mapInfo[id].refCount < NEW_BUCKETS_PER_ADDRESS
      modifies this, vvNew
      ensures old(Usable(Abs()))
      ensures Abs() == Model.Place(old(Abs()), id, source, now)
    {
      ghost var m := Abs();
      hide Mid, Table, IsTerrible, Model.ClearNew, Model.Delete, Later;
      PlaceableFacts(m, id, loose, d);
      var s := mapInfo[id].service;
      var bucket := hashing.NewBucket(s, source);
      var pos := hashing.Position(true, bucket, s);
      CellOf(vvNew, bucket, pos);
      if vvNew[bucket, pos] != id {
        var insert := vvNew[bucket, pos] == -1;
        if !insert {
          var other := mapInfo[vvNew[bucket, pos]];
          insert := IsTerrible(other, now) || (other.refCount > 1 && mapInfo[id].refCount == 0);
        }
        if insert {
          PlaceInsert(m, id, Slot(bucket, pos), loose, d);
          ClearNew(bucket, pos, loose, d);
          mapInfo := mapInfo[id := mapInfo[id].(refCount := mapInfo[id].refCount + 1)];
          SetCell(vvNew, bucket, pos, id);
        } else if mapInfo[id].refCount == 0 {
          LooseKnown(Abs(), loose, d, id);
          Delete(id);
        }
      }
    }

    /** Whether the stochastic test lets an entry with n references get another one. */
    method Chance(n: int, roll: nat) returns (pass: bool)
      ensures pass <==> roll % Pow2(Max0(n)) == 0
    {
      var factor: nat := 1;
      var k := 0;
      while k < n
        invariant 0 <= k <= Max0(n)
        invariant factor == Pow2(k)
      {
        factor := factor * 2;
        k := k + 1;
      }
      pass := factor <= 1 || roll % factor == 0;
    }

    method Reannounce(id: int, a: Address, source: NetAddr, penalty: int, now: int, roll: nat)
      requires Shape() && Inv(Abs()) && id in mapInfo
      modifies this, vvNew
      ensures old(Usable(Abs()))
      ensures Abs() == Model.Reannounce(old(Abs()), id, a, source, penalty, now, roll)
    {
      ghost var m := Abs();
      hide Mid, Table, Usable, Model.Place, Pow2, CollisionsOk, Later;
      InvUsable(m);
      RefreshedFrame(m.info[id], a, penalty, now);
      TouchStep(m, id, Refreshed(m.info[id], a, penalty, now), m.lastGood);
      var i := mapInfo[id];
      var interval := if now - a.time < DAY then 60 * 60 else DAY;
      if a.time != 0 && (i.time == 0 || i.time < a.time - interval - penalty) {
        i := i.(time := ToU32(Max0(a.time - penalty)));
      }
      i := i.(services := i.services + a.services);
      mapInfo := mapInfo[id := i];
      assert i == Refreshed(m.info[id], a, penalty, now);
      hide Refreshed;
      if a.time == 0 || (i.time != 0 && a.time <= i.time) {
        return;
      }
      if i.inTried || i.refCount == NEW_BUCKETS_PER_ADDRESS {
        return;
      }
      var pass := Chance(i.refCount, roll);
      if !pass {
        return;
      }
      assert Abs() == SetInfo(m, id, i).(lastGood := m.lastGood);
      RefsBounded(Abs(), id);
      Place(id, source, now, {}, 0);
    }

    method Announce(a: Address, source: NetAddr, penalty: int, now: int)
      requires Shape() && Inv(Abs()) && Model.Find(Abs(), a.service).None?
      modifies this, vvNew
      ensures old(Usable(Abs()))
      ensures Abs() == Model.Announce(old(Abs()), a, source, penalty, now)
    {
      ghost var m := Abs();
      hide Mid, Table, Usable, Model.Place, CollisionsOk, Later;
      InvUsable(m);
      EnterKeeps(m, a, source, penalty);
      hide Placeable;
      var id := Create(a, source);
      mapInfo := mapInfo[id := mapInfo[id].(time := ToU32(Max0(mapInfo[id].time - penalty)))];
      nNew := nNew + 1;
      assert Abs() == Enter(m, a, source, penalty);
      Place(id, source, now, {id}, 1);
    }

    /** Adds an announced address; the result says whether it was unknown. */
    method Add(a: Address, source: NetAddr, timePenalty: int, now: int, roll: nat) returns (isNew: bool)
      requires Shape() && Inv(Abs())
      modifies this, vvNew
      ensures old(Usable(Abs()))
      ensures (Abs(), isNew) == Model.Add(old(Abs()), a, source, timePenalty, now, roll)
      ensures GoodStep(old(Abs()), Abs())
    {
      hide Inv, Table, Usable, Later, Model.Reannounce, Model.Announce;
      AddKeeps(Abs(), a, source, timePenalty, now, roll);
      if !hashing.routable(a.service.ip) {
        return false;
      }
      var found, id := Find(a.service);
      var penalty := if a.service.ip == source then 0 else timePenalty;
      if found {
        Reannounce(id, a, source, penalty, now, roll);
      } else {
        Announce(a, source, penalty, now);
      }
      isNew := !found;
    }
  
    method Attempt(s: Service, countFailure: bool, time: int)
      requires Shape() && Inv(Abs())
      modifies this
      ensures Abs() == Model.Attempt(old(Abs()), s, countFailure, time)
      ensures GoodStep(old(Abs()), Abs())
    {
      hide Inv, Table, Later;
      AttemptKeeps(Abs(), s, countFailure, time);
      var found, id := Find(s);
      if !found || mapInfo[id].service != s {
        return;
      }
      mapInfo := mapInfo[id := mapInfo[id].(lastTry := time)];
      if countFailure && mapInfo[id].lastCountAttempt < lastGood {
        mapInfo := mapInfo[id := mapInfo[id].(lastCountAttempt := time, attempts := mapInfo[id].attempts + 1)];
      }
    }

    method Connected(s: Service, time: int)
      requires Shape() && Inv(Abs())
      modifies this
      ensures Abs() == Model.Connected(old(Abs()), s, time)
      ensures GoodStep(old(Abs()), Abs())
    {
      hide Inv, Table, Later;
      ConnectedKeeps(Abs(), s, time);
      var found, id := Find(s);
      if !found || mapInfo[id].service != s {
        return;
      }
      if time - mapInfo[id].time > 20 * 60 {
        mapInfo := mapInfo[id := mapInfo[id].(time := ToU32(time))];
      }
    }

    method SetServices(s: Service, services: set<nat>)
      requires Shape() && Inv(Abs())
      modifies this
      ensures Abs() == Model.SetServices(old(Abs()), s, services)
      ensures GoodStep(old(Abs()), Abs())
    {
      hide Inv, Table, Later;
      SetServicesKeeps(Abs(), s, services);
      var found, id := Find(s);
      if !found || mapInfo[id].service != s {
        return;
      }
      mapInfo := mapInfo[id := mapInfo[id].(services := services)];
    }

    /** A random sample of the known addresses; `ids` are the entries whose addresses are returned. */
    method GetAddr(draw: nat -> nat, now: int) returns (ids: seq<int>)
      requires Shape() && Inv(Abs())
      modifies this
      ensures old(RandomIdsKnown(Abs()))
      ensures (Abs(), ids) == Model.GetAddr(old(Abs()), draw, now)
      ensures GoodStep(old(Abs()), Abs())
    {
      ghost var m := Abs();
      hide Inv, Table, IsTerrible, DrawFrom, GetAddrFrom, GoodStep;
      InvUsable(m);
      GetAddrKeeps(m, draw, now);
      hide Usable;
      var limit := GetAddrLimit(|vRandom|);
      ids := [];
      var n: nat := 0;
      while n < |vRandom|
        invariant RandomIdsKnown(Abs()) && n <= |vRandom| == |m.random|
        invariant GetAddrFrom(Abs(), n, ids, draw, now) == GetAddrFrom(m, 0, [], draw, now)
      {
        if |ids| >= limit {
          break;
        }
        GetAddrRound(Abs(), n, ids, draw, now);
        SwapRandom(n, DrawFrom(n, |vRandom|, draw));
        assert vRandom[n] in mapInfo;
        if !IsTerrible(mapInfo[vRandom[n]], now) {
          ids := ids + [vRandom[n]];
        }
        n := n + 1;
      }
      GetAddrEnd(Abs(), n, ids, draw, now);
    }

    /** One round of the loop of ResolveCollisions_. */
    method ResolveOne(id: int, clock: Clock, start: nat)
      requires Shape() && Inv(Abs())
      modifies this, vvNew, vvTried
      ensures old(Usable(Abs()))
      ensures Abs() == Model.ResolveOne(old(Abs()), id, clock)
      ensures Inv(Abs()) && collisions <= old(collisions) && old(collisions) - collisions <= {id}
    {
      ghost var m := Abs();
      hide Mid, CollisionsOk, Table, Model.Good, Later, Usable;
      InvUsable(m);
      TriedKnown(m);
      ResolveOneKeeps(m, id, clock);
      var erase := false;
      if id !in mapInfo {
        erase := true;
      } else {
        GoodNow(m, mapInfo[id].service, clock(0));
        GoodNow(m, mapInfo[id].service, clock(3));
        var i := mapInfo[id];
        var b := hashing.TriedBucket(i.service);
        var p := hashing.Position(false, b, i.service);
        CellOf(vvTried, b, p);
        if !hashing.valid(i.service.ip) {
          erase := true;
        } else if vvTried[b, p] != -1 {
          var rival := mapInfo[vvTried[b, p]];
          if clock(0) - rival.lastSuccess < REPLACEMENT_HOURS * 60 * 60 {
            erase := true;
          } else if clock(1) - rival.lastTry < REPLACEMENT_HOURS * 60 * 60 {
            if clock(2) - rival.lastTry > 60 {
              Good(i.service, false, clock(3), start);
              erase := true;
            }
          } else if clock(2) - i.lastSuccess > TEST_WINDOW {
            Good(i.service, false, clock(3), start);
            erase := true;
          }
        } else {
          Good(i.service, false, clock(0), start);
          erase := true;
        }
      }
      if erase {
        collisions := collisions - {id};
      }
    }

    /** Resolves the pending collisions in ascending order. */
    method ResolveCollisions(clock: int -> Clock, starts: int -> nat)
      requires Shape() && Inv(Abs())
      modifies this, vvNew, vvTried
      ensures Abs() == Runs.ResolveCollisions(old(Abs()), clock)
      ensures GoodStep(old(Abs()), Abs())
    {
      ghost var m := Abs();
      hide Inv, Table, Model.ResolveOne, Later, Usable, GoodStep;
      ResolveFromKeeps(m, m.collisions, clock);
      var pending := collisions;
      while pending != {}
        invariant Inv(Abs())
        invariant ResolveFrom(Abs(), pending, clock) == ResolveFrom(m, m.collisions, clock)
        decreases |pending|
      {
        var id := LeastOf(pending);
        ResolveOne(id, clock(id), starts(id));
        pending := pending - {id};
      }
    }

    method LeastOf(s: set<int>) returns (x: int)
      requires s != {}
      ensures x == Sets.Least(s)
    {
      ghost var least := Sets.Least(s);
      x :| x in s;
      var rest := s - {x};
      while rest != {}
        invariant rest <= s && x in s && forall y | y in s :: y in rest || x <= y
        decreases |rest|
      {
        var y :| y in rest;
        rest := rest - {y};
        if y < x {
          x := y;
        }
      }
      assert x <= least && least <= x;
    }

    /** Returns the tried entry that a randomly picked pending collision would replace. */
    method SelectTriedCollision(pick: int) returns (r: Option<Info>)
      requires Shape() && Inv(Abs())
      requires collisions != {} ==> pick in collisions
      modifies this
      ensures old(collisions) == {} ==> r == None && Abs() == old(Abs())
      ensures old(collisions) != {} ==> (Abs(), r) == Model.SelectTriedCollision(old(Abs()), pick)
      ensures GoodStep(old(Abs()), Abs())
    {
      ghost var m := Abs();
      hide Mid, CollisionsOk, Table, Later;
      Reflexive(m);
      if |collisions| == 0 {
        return None;
      }
      SelectTriedCollisionKeeps(m, pick);
      if pick !in mapInfo {
        collisions := collisions - {pick};
        return None;
      }
      RivalKnown(m, pick);
      var s := mapInfo[pick].service;
      var b := hashing.TriedBucket(s);
      var p := hashing.Position(false, b, s);
      CellOf(vvTried, b, p);
      assert vvTried[b, p] != -1;
      r := Some(mapInfo[vvTried[b, p]]);
    }
  }

  lemma TriedKnown(m: Manager)
    requires Usable(m)
    ensures forall x | x in m.triedTable :: m.triedTable[x] in m.info
  {
  }

  lemma GetAddrEnd(m: Manager, n: nat, picked: seq<int>, draw: nat -> nat, now: int)
    requires RandomIdsKnown(m) && n <= |m.random|
    requires n == |m.random| || |picked| >= GetAddrLimit(|m.random|)
    ensures GetAddrFrom(m, n, picked, draw, now) == (m, picked)
  {
    hide IsTerrible, DrawFrom, GetAddrLimit, Model.SwapRandom;
  }

  function Wrap(k: nat, start: nat): nat { (k + start) % NEW_BUCKET_COUNT }

  lemma WrapAround(b: nat, start: nat) returns (k: nat)
    requires b < NEW_BUCKET_COUNT
    ensures k < NEW_BUCKET_COUNT && Wrap(k, start) == b
  {
    k := (b - start) % NEW_BUCKET_COUNT;
  }

  lemma RemovedState(m: Manager, id: int)
    requires Mid(m, {}, 0) && id in m.info && !m.info[id].inTried
    ensures var w := AddNew(Model.RemoveFromNew(m, id), -1);
            && Usable(w) && Mid(w, {id}, 0) && id in w.info && w.info[id].refCount == 0 && 0 <= id
            && w.hashing == m.hashing && w.triedTable == m.triedTable
  {
    IdBelow(m, {}, 0, id);
    hide Mid;
    RemoveFromNewKeeps(m, id, {}, 0);
    assert {} + {id} == {id};
    AddNewKeeps(Model.RemoveFromNew(m, id), -1, {id}, 1);
    MidUsable(AddNew(Model.RemoveFromNew(m, id), -1), {id}, 0);
  }

  lemma EvictedUsable(m: Manager, x: Slot, loose: set<int>, d: int)
    requires Mid(m, loose, d) && x in m.triedTable
    ensures m.triedTable[x] in m.info && Usable(Untry(m, x))
  {
    hide Mid;
    UntryKeeps(m, x, loose, d);
    MidUsable(Untry(m, x), loose + {m.triedTable[x]}, d);
  }

  lemma NewSlotsOf(m: Manager, loose: set<int>, d: int)
    requires Mid(m, loose, d)
    ensures NewSlotsOk(m.hashing, m.info, m.newTable)
  {
    hide RandomOk, AddrOk, TriedOk, NewSlotsOk, RefsOk, NewIds, TriedIds;
  }

  /** The cells of an id in the buckets below k. */
  ghost function CellsBelow(t: map<Slot, int>, id: int, k: nat): set<Slot> {
    set x | x in t && t[x] == id && x.bucket < k
  }

  /** The manager with some of the cells of an id emptied. */
  ghost function Removed(m: Manager, id: int, xs: set<Slot>): Manager
    requires id in m.info
  {
    SetInfo(m, id, m.info[id].(refCount := m.info[id].refCount - |xs|)).(newTable := m.newTable - xs)
  }

  lemma RemovedMore(m: Manager, id: int, xs: set<Slot>, x: Slot)
    requires id in m.info && x !in xs
    ensures var w := Removed(m, id, xs);
            && id in w.info && w.info[id].service == m.info[id].service && w.hashing == m.hashing
            && (x in w.newTable <==> x in m.newTable) && (x in m.newTable ==> w.newTable[x] == m.newTable[x])
            && Removed(m, id, xs + {x}) ==
                 SetInfo(w, id, w.info[id].(refCount := w.info[id].refCount - 1)).(newTable := w.newTable - {x})
  {
    var w := Removed(m, id, xs);
    assert w.newTable - {x} == m.newTable - (xs + {x});
  }

  lemma NextCell(m: Manager, id: int, bucket: nat)
    requires NewSlotsOk(m.hashing, m.info, m.newTable) && id in m.info
    ensures var xs, x := CellsBelow(m.newTable, id, bucket), m.hashing.NewSlot(bucket, m.info[id].service);
            && x !in xs
            && CellsBelow(m.newTable, id, bucket + 1) ==
                 (if x in m.newTable && m.newTable[x] == id then xs + {x} else xs)
  {
  }

  lemma BucketStep(m: Manager, id: int, bucket: nat)
    requires NewSlotsOk(m.hashing, m.info, m.newTable) && id in m.info
    ensures var w := Removed(m, id, CellsBelow(m.newTable, id, bucket));
            && id in w.info
            && var x := w.hashing.NewSlot(bucket, w.info[id].service);
               Removed(m, id, CellsBelow(m.newTable, id, bucket + 1)) ==
                 if x in w.newTable && w.newTable[x] == id
                 then SetInfo(w, id, w.info[id].(refCount := w.info[id].refCount - 1)).(newTable := w.newTable - {x})
                 else w
  {
    NextCell(m, id, bucket);
    RemovedMore(m, id, CellsBelow(m.newTable, id, bucket), m.hashing.NewSlot(bucket, m.info[id].service));
  }

  lemma NoCells(m: Manager, id: int)
    requires id in m.info
    ensures Removed(m, id, CellsBelow(m.newTable, id, 0)) == m
  {
    assert CellsBelow(m.newTable, id, 0) == {};
    assert m.newTable - {} == m.newTable;
  }

  lemma AllCells(m: Manager, id: int)
    requires NewSlotsOk(m.hashing, m.info, m.newTable) && id in m.info
    ensures Removed(m, id, CellsBelow(m.newTable, id, NEW_BUCKET_COUNT)) == Model.RemoveFromNew(m, id)
  {
    assert CellsBelow(m.newTable, id, NEW_BUCKET_COUNT) == SlotsOf(m.newTable, id);
  }
}
