/**
 Whole runs of the address manager: the invariant holds after every sequence of
 operations on a new manager, and occupied tried slots never become empty.
 */
module AddrManRuns {
  import opened Options
  import opened AddrManModel
  import opened AddrManInvariant
  import Sets

  // ----------------------------------------------------------------- sampling

  /** The ids kept by the first n rounds of the sampling loop: distinct, among the first n positions, not terrible. */
  ghost predicate Picked(m: Manager, n: nat, picked: seq<int>, now: int) {
    && (forall k | 0 <= k < |picked| ::
          && picked[k] in m.info && m.info[picked[k]].randomPos < n
          && !IsTerrible(m.info[picked[k]], now))
    && (forall j, k | 0 <= j < k < |picked| :: picked[j] != picked[k])
  }

  lemma SwapBehind(m: Manager, n: nat, j: nat, picked: seq<int>, now: int)
    requires RandomOk(m.info, m.random) && n <= j < |m.random| && Picked(m, n, picked, now)
    ensures RandomIdsKnown(m)
    ensures var w := SwapRandom(m, n, j);
            RandomIdsKnown(w) && n < |w.random| && Picked(w, n + 1, KeepAt(w, n, picked, now), now)
  {
    hide IsTerrible;
    SwapRandomOk(m, n, j);
    var w := SwapRandom(m, n, j);
    var id := w.random[n];
    assert w.info[id].randomPos == n;
    forall k | 0 <= k < |picked| ensures picked[k] in w.info && w.info[picked[k]] == m.info[picked[k]] {
      assert m.info[picked[k]].randomPos < n;
      assert picked[k] != m.random[n] && picked[k] != m.random[j];
    }
  }

  ghost function KeepAt(w: Manager, n: nat, picked: seq<int>, now: int): seq<int>
    requires n < |w.random| && RandomIdsKnown(w)
  {
    if IsTerrible(w.info[w.random[n]], now) then picked else picked + [w.random[n]]
  }

  lemma GetAddrRound(m: Manager, n: nat, picked: seq<int>, draw: nat -> nat, now: int)
    requires RandomIdsKnown(m) && n < |m.random| && |picked| < GetAddrLimit(|m.random|)
    ensures var w := SwapRandom(m, n, DrawFrom(n, |m.random|, draw));
            && RandomIdsKnown(w) && |w.random| == |m.random|
            && GetAddrFrom(m, n, picked, draw, now) == GetAddrFrom(w, n + 1, KeepAt(w, n, picked, now), draw, now)
  {
    hide IsTerrible, DrawFrom, GetAddrLimit;
  }

  lemma {:induction false} GetAddrFromKeeps(m: Manager, n: nat, picked: seq<int>, draw: nat -> nat, now: int)
    requires Inv(m) && n <= |m.random| && Picked(m, n, picked, now) && |picked| <= GetAddrLimit(|m.random|)
    ensures RandomIdsKnown(m)
    ensures var (m', ids) := GetAddrFrom(m, n, picked, draw, now);
            && GoodStep(m, m') && |m'.random| == |m.random|
            && Picked(m', |m'.random|, ids, now) && |ids| <= GetAddrLimit(|m.random|)
    decreases |m.random| - n
  {
    hide RandomOk, Inv, IsTerrible, GoodStep, GetAddrLimit, DrawFrom, Picked, SwapRandom, Usable;
    InvUsable(m);
    Reflexive(m);
    RandomOf(m);
    RandomKnown(m);
    if n == |m.random| || |picked| >= GetAddrLimit(|m.random|) {
      PickedMore(m, n, |m.random|, picked, now);
    } else {
      GetAddrRound(m, n, picked, draw, now);
      var j := DrawFrom(n, |m.random|, draw);
      var w := SwapRandom(m, n, j);
      SwapRandomStep(m, n, j);
      SwapBehind(m, n, j, picked, now);
      GoodStepInv(m, w);
      RandomKnown(w);
      var more := KeepAt(w, n, picked, now);
      GetAddrFromKeeps(w, n + 1, more, draw, now);
      GoodStepTrans(m, w, GetAddrFrom(w, n + 1, more, draw, now).0);
    }
  }

  lemma GoodStepInv(m: Manager, w: Manager)
    requires GoodStep(m, w)
    ensures Inv(w)
  {
  }

  lemma RandomKnown(m: Manager)
    requires Inv(m)
    ensures RandomIdsKnown(m)
  {
    InvUsable(m);
  }

  lemma RandomOf(m: Manager)
    requires Inv(m)
    ensures RandomOk(m.info, m.random)
  {
    hide RandomOk, AddrOk, TriedOk, NewSlotsOk, RefsOk, NewIds, TriedIds;
  }

  lemma PickedMore(m: Manager, n: nat, n': nat, picked: seq<int>, now: int)
    requires Picked(m, n, picked, now) && n <= n'
    ensures Picked(m, n', picked, now)
  {
    hide IsTerrible;
  }

  lemma SwapRandomStep(m: Manager, i: nat, j: nat)
    requires Inv(m) && i < |m.random| && j < |m.random|
    ensures RandomIdsKnown(m)
    ensures GoodStep(m, SwapRandom(m, i, j)) && |SwapRandom(m, i, j).random| == |m.random|
  {
    hide Mid, CollisionsOk;
    SwapRandomKeeps(m, i, j, {}, 0);
    SwapRandomEffect(m, i, j);
    hide SwapRandom;
    GoodStepFrom(m, SwapRandom(m, i, j));
  }

  /** GetAddr_ returns distinct known addresses that are not terrible, at most 23% of all and at most 2500. */
  lemma GetAddrKeeps(m: Manager, draw: nat -> nat, now: int)
    requires Inv(m)
    ensures RandomIdsKnown(m)
    ensures var (m', ids) := GetAddr(m, draw, now);
            && GoodStep(m, m')
            && 100 * |ids| <= 23 * |m.random| && |ids| <= 2500
            && (forall k | 0 <= k < |ids| :: ids[k] in m'.info && !IsTerrible(m'.info[ids[k]], now))
            && (forall j, k | 0 <= j < k < |ids| :: ids[j] != ids[k])
  {
    hide Inv, IsTerrible;
    GetAddrFromKeeps(m, 0, [], draw, now);
  }

  // --------------------------------------------------------------- collisions

  lemma EraseCollision(m: Manager, m': Manager, id: int)
    requires GoodStep(m, m') && m'.collisions == m.collisions
    ensures GoodStep(m, m'.(collisions := m.collisions - {id}))
  {
    hide RandomOk, AddrOk, TriedOk, NewSlotsOk, RefsOk, NewIds, TriedIds;
    Sets.SubsetSize(m.collisions - {id}, m.collisions);
  }

  lemma ResolveOneKeeps(m: Manager, id: int, clock: Clock)
    requires Inv(m)
    ensures Usable(m) && GoodStep(m, ResolveOne(m, id, clock))
  {
    hide Inv, GoodStep, Good, Usable, Hashing.TriedSlot;
    InvUsable(m);
    Reflexive(m);
    EraseCollision(m, m, id);
    if id in m.info {
      ResolvedKeeps(m, id, clock(0));
      ResolvedKeeps(m, id, clock(3));
    }
  }

  lemma ResolvedKeeps(m: Manager, id: int, time: int)
    requires Inv(m) && id in m.info
    ensures Usable(m)
    ensures GoodStep(m, Good(m, m.info[id].service, false, time).(collisions := m.collisions - {id}))
  {
    hide Inv, GoodStep, Good, Usable;
    GoodKeeps(m, m.info[id].service, false, time);
    GoodNow(m, m.info[id].service, time);
    EraseCollision(m, Good(m, m.info[id].service, false, time), id);
  }

  /** The loop over the pending collisions, in ascending order; each reads the clock as often as it needs. */
  ghost function ResolveFrom(m: Manager, pending: set<int>, clock: int -> Clock): Manager
    requires Inv(m)
    decreases |pending|
  {
    if pending == {} then m else
    var id := Sets.Least(pending);
    ResolveOneKeeps(m, id, clock(id));
    ResolveFrom(ResolveOne(m, id, clock(id)), pending - {id}, clock)
  }

  ghost function ResolveCollisions(m: Manager, clock: int -> Clock): Manager
    requires Inv(m)
  {
    ResolveFrom(m, m.collisions, clock)
  }

  lemma {:induction false} ResolveFromKeeps(m: Manager, pending: set<int>, clock: int -> Clock)
    requires Inv(m)
    ensures GoodStep(m, ResolveFrom(m, pending, clock))
    decreases |pending|
  {
    LaterRefl(m, m);
    hide Inv, ResolveOne, Later;
    if pending != {} {
      var id := Sets.Least(pending);
      ResolveOneKeeps(m, id, clock(id));
      var w := ResolveOne(m, id, clock(id));
      ResolveFromKeeps(w, pending - {id}, clock);
      GoodStepTrans(m, w, ResolveFrom(w, pending - {id}, clock));
    }
  }

  /** The slot a known pending collision waits for is occupied, by a known tried entry. */
  lemma RivalKnown(m: Manager, id: int)
    requires Inv(m) && id in m.collisions && id in m.info
    ensures var x := m.hashing.TriedSlot(m.info[id].service);
            x in m.triedTable && m.triedTable[x] in m.info && m.info[m.triedTable[x]].inTried
  {
    hide RandomOk, AddrOk, NewSlotsOk, RefsOk, NewIds, TriedIds;
  }

  /** SelectTriedCollision_ never looks up id -1: it returns a known tried entry and adds none. */
  lemma SelectTriedCollisionKeeps(m: Manager, id: int)
    requires Inv(m) && id in m.collisions
    ensures var (m', r) := SelectTriedCollision(m, id);
            && GoodStep(m, m') && m'.info == m.info
            && (r.Some? <==> id in m.info)
            && (r.Some? ==> r.value.inTried)
            && (r.Some? ==> m.hashing.TriedSlot(r.value.service) == m.hashing.TriedSlot(m.info[id].service))
  {
    LaterRefl(m, m);
    if id in m.info {
      RivalKnown(m, id);
      RivalSlot(m, id);
    } else {
      assert GoodStep(m, m);
      EraseCollision(m, m, id);
    }
    hide Mid, CollisionsOk, Hashing.TriedSlot;
  }

  /** Without an occupied slot to wait for, SelectTriedCollision_ adds an empty entry under id -1. */
  lemma SelectTriedCollisionExact(m: Manager, id: int)
    requires Mid(m, {}, 0)
    ensures SelectTriedCollision(m, id).0.info == m.info <==>
              (id !in m.info || m.hashing.TriedSlot(m.info[id].service) in m.triedTable)
  {
    hide RandomOk, AddrOk, NewSlotsOk, RefsOk, NewIds, TriedIds;
    var m' := SelectTriedCollision(m, id).0;
    if id in m.info && m.hashing.TriedSlot(m.info[id].service) !in m.triedTable {
      assert -1 !in m.info && -1 in m'.info;
    }
  }

  lemma RivalSlot(m: Manager, id: int)
    requires Inv(m) && id in m.collisions && id in m.info
    ensures var x := m.hashing.TriedSlot(m.info[id].service);
            && x in m.triedTable && m.triedTable[x] in m.info
            && m.hashing.TriedSlot(m.info[m.triedTable[x]].service) == x
  {
    hide RandomOk, AddrOk, NewSlotsOk, RefsOk, NewIds, TriedIds;
  }

  // --------------------------------------------------------------------- runs

  /** One call of a public operation, with the random draws and clock readings it makes. */
  datatype Operation =
    | OpAdd(address: Address, source: NetAddr, timePenalty: int, now: int, roll: nat)
    | OpGood(service: Service, testBeforeEvict: bool, time: int)
    | OpAttempt(service: Service, countFailure: bool, time: int)
    | OpConnected(service: Service, time: int)
    | OpSetServices(service: Service, services: set<nat>)
    | OpGetAddr(draw: nat -> nat, now: int)
    | OpResolveCollisions(clock: int -> Clock)
    | OpSelectTriedCollision(pick: int)

  /** The effect of one operation; the pick of a pending collision must be one. */
  ghost function Apply(m: Manager, op: Operation): Manager
    requires Inv(m)
  {
    InvUsable(m);
    match op
    case OpAdd(a, source, penalty, now, roll) => Add(m, a, source, penalty, now, roll).0
    case OpGood(s, test, time) => Good(m, s, test, time)
    case OpAttempt(s, count, time) => Attempt(m, s, count, time)
    case OpConnected(s, time) => Connected(m, s, time)
    case OpSetServices(s, services) => SetServices(m, s, services)
    case OpGetAddr(draw, now) => GetAddr(m, draw, now).0
    case OpResolveCollisions(clock) => ResolveCollisions(m, clock)
    case OpSelectTriedCollision(pick) => if pick in m.collisions then SelectTriedCollision(m, pick).0 else m
  }

  lemma ApplyKeeps(m: Manager, op: Operation)
    requires Inv(m)
    ensures GoodStep(m, Apply(m, op))
  {
    InvUsable(m);
    LaterRefl(m, m);
    assert GoodStep(m, m);
    hide Inv, GoodStep, Add, Good, Attempt, Connected, SetServices, GetAddr, ResolveFrom, SelectTriedCollision;
    match op {
      case OpAdd(a, source, penalty, now, roll) => AddKeeps(m, a, source, penalty, now, roll);
      case OpGood(s, test, time) => GoodKeeps(m, s, test, time);
      case OpAttempt(s, count, time) => AttemptKeeps(m, s, count, time);
      case OpConnected(s, time) => ConnectedKeeps(m, s, time);
      case OpSetServices(s, services) => SetServicesKeeps(m, s, services);
      case OpGetAddr(draw, now) => GetAddrKeeps(m, draw, now);
      case OpResolveCollisions(clock) => ResolveFromKeeps(m, m.collisions, clock);
      case OpSelectTriedCollision(pick) => if pick in m.collisions { SelectTriedCollisionKeeps(m, pick); }
    }
  }

  lemma EmptyInv(discriminatePorts: bool, hashing: Hashing)
    ensures Inv(Empty(discriminatePorts, hashing))
  {
    var m := Empty(discriminatePorts, hashing);
    assert NewIds(m.info) == {};
    assert TriedIds(m.info) == {};
  }

  /** A run of operations; the last one is applied last. */
  ghost function Run(m: Manager, ops: seq<Operation>): (m': Manager)
    requires Inv(m)
    ensures Inv(m')
  {
    if ops == [] then m else
    var w := Run(m, ops[..|ops| - 1]);
    ApplyKeeps(w, ops[|ops| - 1]);
    Apply(w, ops[|ops| - 1])
  }

  /** After every run of a new manager the invariant holds. */
  lemma RunsKeepInvariant(discriminatePorts: bool, hashing: Hashing, ops: seq<Operation>)
    ensures Inv(Empty(discriminatePorts, hashing)) && Inv(Run(Empty(discriminatePorts, hashing), ops))
  {
    EmptyInv(discriminatePorts, hashing);
  }

  /** A tried slot that is occupied at some point of a run is occupied at every later point. */
  lemma {:induction false} TriedSlotsStayOccupied(m: Manager, ops: seq<Operation>, k: nat)
    requires Inv(m) && k <= |ops|
    ensures GoodStep(Run(m, ops[..k]), Run(m, ops))
    decreases |ops| - k
  {
    hide Inv, GoodStep;
    if k == |ops| {
      assert ops[..k] == ops;
      Reflexive(Run(m, ops));
    } else {
      TriedSlotsStayOccupied(m, ops, k + 1);
      assert ops[..k + 1][..k] == ops[..k];
      ApplyKeeps(Run(m, ops[..k]), ops[k]);
      GoodStepTrans(Run(m, ops[..k]), Run(m, ops[..k + 1]), Run(m, ops));
    }
  }

  lemma Reflexive(m: Manager)
    requires Inv(m)
    ensures GoodStep(m, m)
  {
    hide Inv;
    LaterRefl(m, m);
  }

  // --------------------------------------------------------- what Check_ tests

  /** The number of entries is the sum of the two counters. */
  lemma SizeIsSum(m: Manager)
    requires Inv(m)
    ensures |m.random| == m.nNew + m.nTried && |m.info| == |m.random|
  {
    RandomOf(m);
    hide AddrOk, TriedOk, NewSlotsOk, RefsOk, IdsOk;
    forall x ensures x in m.info.Keys <==> x in m.random {
      if x in m.info.Keys {
        assert m.random[m.info[x].randomPos] == x;
      }
    }
    forall i, j | 0 <= i < j < |m.random| ensures m.random[i] != m.random[j] {
      assert m.info[m.random[i]].randomPos == i;
      assert m.info[m.random[j]].randomPos == j;
    }
    Sets.DistinctSize(m.random, m.info.Keys);
    assert NewIds(m.info) - {} == NewIds(m.info);
    assert m.info.Keys == NewIds(m.info) + TriedIds(m.info);
    assert NewIds(m.info) !! TriedIds(m.info);
  }

  /** The address test of Check_: it looks an entry up by its full service, and a missing key reads as id 0. */
  ghost predicate CheckAddr(m: Manager) {
    forall id | id in m.info ::
      (if m.info[id].service in m.addr then m.addr[m.info[id].service] else 0) == id
  }

  /**
   Check_ does not normalise the port, so its address test fails on sound managers:
   it passes exactly when ports are discriminated or every entry but id 0 has port 0.
   */
  lemma CheckAddrExact(m: Manager)
    requires Inv(m)
    ensures CheckAddr(m) <==>
              (m.discriminatePorts || forall id | id in m.info :: id == 0 || m.info[id].service.port == 0)
  {
    hide RandomOk, TriedOk, NewSlotsOk, RefsOk, NewIds, TriedIds;
    forall id | id in m.info
      ensures m.info[id].service in m.addr <==> (m.discriminatePorts || m.info[id].service.port == 0)
      ensures m.info[id].service in m.addr ==> m.addr[m.info[id].service] == id
    {
      var s := m.info[id].service;
      if s in m.addr {
        assert Key(m.discriminatePorts, m.info[m.addr[s]].service) == s;
      }
      if m.discriminatePorts || s.port == 0 {
        assert Key(m.discriminatePorts, s) == s;
      }
    }
  }
}
