/**
 The address manager as a value: its tables, its indexes and its counters, and
 each of its operations as a function from one value to the next.  The class in
 module AddrMan refines these functions; module AddrManInvariant proves what
 they keep.

 The secret key, the hash functions and the AS map enter only through `Hashing`,
 whose functions are arbitrary.  Random draws and clock readings are arguments.
 */
module AddrManModel {
  import opened Options

  const NEW_BUCKET_COUNT: nat := 1024
  const TRIED_BUCKET_COUNT: nat := 256
  const BUCKET_SIZE: nat := 64
  const NEW_BUCKETS_PER_ADDRESS: nat := 8
  const HORIZON_DAYS: nat := 30
  const RETRIES: nat := 3
  const MAX_FAILURES: nat := 10
  const MIN_FAIL_DAYS: nat := 7
  const REPLACEMENT_HOURS: nat := 4
  const GETADDR_MAX_PCT: nat := 23
  const GETADDR_MAX: nat := 2500
  const SET_TRIED_COLLISION_SIZE: nat := 10
  const TEST_WINDOW: nat := 40 * 60
  const DAY: nat := 24 * 60 * 60

  type NetAddr = nat

  /** A network address with its port. */
  datatype Service = Service(ip: NetAddr, port: nat)

  /** What a peer announces: a service with its time stamp and service flags. */
  datatype Address = Address(service: Service, time: nat, services: set<nat>)

  /** Everything known about one address. */
  datatype Info = Info(
    service: Service,
    source: NetAddr,
    time: nat,
    services: set<nat>,
    lastTry: int,
    lastCountAttempt: int,
    lastSuccess: int,
    attempts: int,
    refCount: int,
    inTried: bool,
    randomPos: int)

  /** Bucket and position in that bucket. */
  datatype Slot = Slot(bucket: nat, pos: nat)

  /** The keyed hashes, and the two address classifications, as arbitrary functions. */
  datatype Hashing = Hashing(
    newHash: (Service, NetAddr) -> nat,
    triedHash: Service -> nat,
    positionHash: (bool, nat, Service) -> nat,
    routable: NetAddr -> bool,
    valid: NetAddr -> bool)
  {
    function NewBucket(s: Service, source: NetAddr): nat { newHash(s, source) % NEW_BUCKET_COUNT }

    function TriedBucket(s: Service): nat { triedHash(s) % TRIED_BUCKET_COUNT }

    function Position(isNew: bool, bucket: nat, s: Service): nat { positionHash(isNew, bucket, s) % BUCKET_SIZE }

    /** The one place in a given "new" bucket where an address may sit. */
    function NewSlot(bucket: nat, s: Service): Slot { Slot(bucket, Position(true, bucket, s)) }

    /** The one place in the "tried" table where an address may sit. */
    function TriedSlot(s: Service): Slot { Slot(TriedBucket(s), Position(false, TriedBucket(s), s)) }
  }

  /** The manager.  `newTable` and `triedTable` hold the occupied slots only: an absent slot is -1 in the tables. */
  datatype Manager = Manager(
    discriminatePorts: bool,
    hashing: Hashing,
    idCount: nat,
    info: map<int, Info>,
    addr: map<Service, int>,
    random: seq<int>,
    nTried: int,
    triedTable: map<Slot, int>,
    nNew: int,
    newTable: map<Slot, int>,
    lastGood: int,
    collisions: set<int>)

  /** The key of the address index: the port counts only when ports are discriminated. */
  function Key(discriminatePorts: bool, s: Service): Service {
    if discriminatePorts then s else s.(port := 0)
  }

  function Max0(x: int): nat { if x < 0 then 0 else x }

  /** Conversion to the 32-bit field that holds a time stamp. */
  function ToU32(x: int): nat { x % 0x1_0000_0000 }

  /** Whether an entry is bad enough to be dropped. */
  predicate IsTerrible(i: Info, now: int) {
    if i.lastTry != 0 && i.lastTry >= now - 60 then false
    else if i.time > now + 10 * 60 then true
    else if i.time == 0 || now - i.time > HORIZON_DAYS * DAY then true
    else if i.lastSuccess == 0 && i.attempts >= RETRIES then true
    else now - i.lastSuccess > MIN_FAIL_DAYS * DAY && i.attempts >= MAX_FAILURES
  }

  function NewInfo(a: Address, source: NetAddr): Info {
    Info(a.service, source, a.time, a.services, 0, 0, 0, 0, 0, false, -1)
  }

  /** The state after Clear in a newly constructed manager. */
  ghost function Empty(discriminatePorts: bool, hashing: Hashing): Manager {
    Manager(discriminatePorts, hashing, 0, map[], map[], [], 0, map[], 0, map[], 1, {})
  }

  /** The id an address is known under, if any. */
  ghost function Find(m: Manager, s: Service): Option<int> {
    var k := Key(m.discriminatePorts, s);
    if k in m.addr && m.addr[k] in m.info then Some(m.addr[k]) else None
  }

  /** As `Find`, but only for the exact same service, port included. */
  ghost function FindExact(m: Manager, s: Service): Option<int> {
    var f := Find(m, s);
    if f.Some? && m.info[f.value].service != s then None else f
  }

  ghost function SetInfo(m: Manager, id: int, i: Info): Manager {
    m.(info := m.info[id := i])
  }

  /** Adds an entry under the next id; it is in no table yet. */
  ghost function Create(m: Manager, a: Address, source: NetAddr): Manager {
    m.(idCount := m.idCount + 1,
       info := m.info[m.idCount := NewInfo(a, source).(randomPos := |m.random|)],
       addr := m.addr[Key(m.discriminatePorts, a.service) := m.idCount],
       random := m.random + [m.idCount])
  }

  ghost predicate RandomIdsKnown(m: Manager) {
    forall k | 0 <= k < |m.random| :: m.random[k] in m.info
  }

  ghost function SwapRandom(m: Manager, i: nat, j: nat): Manager
    requires i < |m.random| && j < |m.random| && RandomIdsKnown(m)
  {
    if i == j then m else
    var a, b := m.random[i], m.random[j];
    var info1 := m.info[a := m.info[a].(randomPos := j)];
    m.(info := info1[b := info1[b].(randomPos := i)],
       random := m.random[i := b][j := a])
  }

  /** Forgets an entry that is in no table. */
  ghost function Delete(m: Manager, id: int): Manager
    requires id in m.info && 0 <= m.info[id].randomPos < |m.random| && RandomIdsKnown(m)
  {
    var w := SwapRandom(m, m.info[id].randomPos, |m.random| - 1);
    w.(random := w.random[..|w.random| - 1],
       addr := m.addr - {Key(m.discriminatePorts, m.info[id].service)},
       info := w.info - {id},
       nNew := m.nNew - 1)
  }

  /** What the steps below rely on: the random vector and the slot tables only mention known ids. */
  ghost predicate Usable(m: Manager) {
    && RandomIdsKnown(m)
    && (forall id | id in m.info :: 0 <= m.info[id].randomPos < |m.random|)
    && (forall x | x in m.newTable :: m.newTable[x] in m.info)
    && (forall x | x in m.triedTable :: m.triedTable[x] in m.info)
  }

  /** Takes the occupant out of a "new" slot and drops its reference count. */
  ghost function Unslot(m: Manager, x: Slot): Manager
    requires x in m.newTable && m.newTable[x] in m.info
  {
    var id := m.newTable[x];
    SetInfo(m, id, m.info[id].(refCount := m.info[id].refCount - 1)).(newTable := m.newTable - {x})
  }

  /** Empties a "new" slot; an occupant without any other reference is forgotten. */
  ghost function ClearNew(m: Manager, x: Slot): Manager
    requires Usable(m)
  {
    if x !in m.newTable then m else
    var w := Unslot(m, x);
    if w.info[m.newTable[x]].refCount == 0 then Delete(w, m.newTable[x]) else w
  }

  /** Enters an id into a "new" slot, whatever the slot held. */
  ghost function PutNew(m: Manager, x: Slot, id: int): Manager
    requires id in m.info
  {
    SetInfo(m, id, m.info[id].(refCount := m.info[id].refCount + 1)).(newTable := m.newTable[x := id])
  }

  /** The "new" slots an id occupies. */
  ghost function SlotsOf(newTable: map<Slot, int>, id: int): set<Slot> {
    set x | x in newTable && newTable[x] == id
  }

  /** Takes an id out of every "new" slot it occupies. */
  ghost function RemoveFromNew(m: Manager, id: int): Manager
    requires id in m.info
  {
    var xs := SlotsOf(m.newTable, id);
    SetInfo(m, id, m.info[id].(refCount := m.info[id].refCount - |xs|)).(newTable := m.newTable - xs)
  }

  /** Takes the occupant of a "tried" slot out of the table. */
  ghost function Untry(m: Manager, x: Slot): Manager
    requires x in m.triedTable && m.triedTable[x] in m.info
  {
    var id := m.triedTable[x];
    SetInfo(m, id, m.info[id].(inTried := false)).(triedTable := m.triedTable - {x}, nTried := m.nTried - 1)
  }

  /** Enters an id into a "tried" slot. */
  ghost function PutTried(m: Manager, x: Slot, id: int): Manager
    requires id in m.info
  {
    SetInfo(m, id, m.info[id].(inTried := true)).(triedTable := m.triedTable[x := id], nTried := m.nTried + 1)
  }

  ghost function AddNew(m: Manager, k: int): Manager { m.(nNew := m.nNew + k) }

  /** Moves the occupant of a "tried" slot back to the "new" table, at the bucket of its own source. */
  ghost function Evict(m: Manager, x: Slot): Manager
    requires Usable(m) && x in m.triedTable
  {
    var id := m.triedTable[x];
    var w := Untry(m, x);
    var i := w.info[id];
    var y := m.hashing.NewSlot(m.hashing.NewBucket(i.service, i.source), i.service);
    var c := ClearNew(w, y);
    if id !in c.info then c else AddNew(PutNew(c, y, id), 1)
  }

  /** Moves an entry from the "new" table to its slot in the "tried" table. */
  ghost function MakeTried(m: Manager, id: int): Manager
    requires Usable(m) && id in m.info
  {
    var w := AddNew(RemoveFromNew(m, id), -1);
    var x := m.hashing.TriedSlot(m.info[id].service);
    var e := if x in w.triedTable then Evict(w, x) else w;
    if id !in e.info then e else PutTried(e, x, id)
  }

  /** The entry sits in some "new" bucket, at its position there. */
  ghost predicate InSomeBucket(m: Manager, id: int)
    requires id in m.info
  {
    exists b: nat :: b < NEW_BUCKET_COUNT && InBucket(m, id, b)
  }

  ghost predicate InBucket(m: Manager, id: int, b: nat)
    requires id in m.info
  {
    var x := m.hashing.NewSlot(b, m.info[id].service);
    x in m.newTable && m.newTable[x] == id
  }

  /** Moves a known entry to "tried", or queues it when its slot is taken and the occupant is to be tested first. */
  ghost function Promote(m: Manager, id: int, testBeforeEvict: bool): Manager
    requires Usable(m) && id in m.info
  {
    if m.info[id].inTried || !InSomeBucket(m, id) then m
    else if testBeforeEvict && m.hashing.TriedSlot(m.info[id].service) in m.triedTable then
      if |m.collisions| < SET_TRIED_COLLISION_SIZE then m.(collisions := m.collisions + {id}) else m
    else MakeTried(m, id)
  }

  /** A successful connection to an address. */
  ghost function Good(m: Manager, s: Service, testBeforeEvict: bool, time: int): Manager
    requires Usable(m)
  {
    var m0 := m.(lastGood := time);
    var f := FindExact(m, s);
    if f.None? then m0 else
    var i := m.info[f.value].(lastSuccess := time, lastTry := time, attempts := 0);
    Promote(SetInfo(m0, f.value, i), f.value, testBeforeEvict)
  }

  /** The entry with what a repeated announcement of it adds. */
  function Refreshed(i: Info, a: Address, penalty: int, now: int): Info {
    var interval := if now - a.time < DAY then 60 * 60 else DAY;
    var t := if a.time != 0 && (i.time == 0 || i.time < a.time - interval - penalty)
             then ToU32(Max0(a.time - penalty)) else i.time;
    i.(time := t, services := i.services + a.services)
  }

  function Pow2(n: nat): nat
    ensures Pow2(n) >= 1
  {
    if n == 0 then 1 else 2 * Pow2(n - 1)
  }

  /** Whether an announcement of a known address may get it one more "new" slot. */
  predicate Improves(i: Info, a: Address, roll: nat) {
    && a.time != 0
    && (i.time == 0 || a.time > i.time)
    && !i.inTried
    && i.refCount != NEW_BUCKETS_PER_ADDRESS
    && roll % Pow2(Max0(i.refCount)) == 0
  }

  /** Tries to give an entry the "new" slot that the source of an announcement selects. */
  ghost function Place(m: Manager, id: int, source: NetAddr, now: int): Manager
    requires Usable(m) && id in m.info
  {
    var s := m.info[id].service;
    var x := m.hashing.NewSlot(m.hashing.NewBucket(s, source), s);
    if x in m.newTable && m.newTable[x] == id then m
    else if x !in m.newTable
            || IsTerrible(m.info[m.newTable[x]], now)
            || (m.info[m.newTable[x]].refCount > 1 && m.info[id].refCount == 0) then
      var c := ClearNew(m, x);
      if id !in c.info then c else PutNew(c, x, id)
    else if m.info[id].refCount == 0 then Delete(m, id)
    else m
  }

  /** An announcement of a known address. */
  ghost function Reannounce(m: Manager, id: int, a: Address, source: NetAddr, penalty: int, now: int,
                            roll: nat): Manager
    requires Usable(m) && id in m.info
  {
    var i := Refreshed(m.info[id], a, penalty, now);
    var m1 := SetInfo(m, id, i);
    if Improves(i, a, roll) then Place(m1, id, source, now) else m1
  }

  /** Creates the entry of an unknown address, counted as new although it has no slot yet. */
  ghost function Enter(m: Manager, a: Address, source: NetAddr, penalty: int): Manager {
    var c := Create(m, a, source);
    var i := c.info[m.idCount];
    AddNew(SetInfo(c, m.idCount, i.(time := ToU32(Max0(i.time - penalty)))), 1)
  }

  /** An announcement of an unknown address. */
  ghost function Announce(m: Manager, a: Address, source: NetAddr, penalty: int, now: int): Manager
    requires Usable(m)
  {
    Place(Enter(m, a, source, penalty), m.idCount, source, now)
  }

  /** Adds an announced address; the result says whether it was unknown. */
  ghost function Add(m: Manager, a: Address, source: NetAddr, timePenalty: int, now: int, roll: nat): (Manager, bool)
    requires Usable(m)
  {
    if !m.hashing.routable(a.service.ip) then (m, false) else
    var penalty := if a.service.ip == source then 0 else timePenalty;
    var f := Find(m, a.service);
    if f.Some? then (Reannounce(m, f.value, a, source, penalty, now, roll), false)
    else (Announce(m, a, source, penalty, now), true)
  }

  /** A connection attempt. */
  ghost function Attempt(m: Manager, s: Service, countFailure: bool, time: int): Manager {
    var f := FindExact(m, s);
    if f.None? then m else
    var i := m.info[f.value].(lastTry := time);
    SetInfo(m, f.value,
            if countFailure && i.lastCountAttempt < m.lastGood
            then i.(lastCountAttempt := time, attempts := i.attempts + 1) else i)
  }

  /** A peer that is connected now. */
  ghost function Connected(m: Manager, s: Service, time: int): Manager {
    var f := FindExact(m, s);
    if f.None? || time - m.info[f.value].time <= 20 * 60 then m else
    SetInfo(m, f.value, m.info[f.value].(time := ToU32(time)))
  }

  ghost function SetServices(m: Manager, s: Service, services: set<nat>): Manager {
    var f := FindExact(m, s);
    if f.None? then m else SetInfo(m, f.value, m.info[f.value].(services := services))
  }

  function GetAddrLimit(size: nat): nat {
    var n := GETADDR_MAX_PCT * size / 100;
    if n > GETADDR_MAX then GETADDR_MAX else n
  }

  /** A uniform draw among the positions from n on. */
  function DrawFrom(n: nat, size: nat, draw: nat -> nat): (j: nat)
    requires n < size
    ensures n <= j < size
  {
    draw(n) % (size - n) + n
  }

  /**
   The sampling loop from position n on: each round swaps a drawn position into place n
   and keeps the entry now there unless it is terrible.  The result lists the kept ids.
   */
  ghost function GetAddrFrom(m: Manager, n: nat, picked: seq<int>, draw: nat -> nat, now: int): (Manager, seq<int>)
    requires RandomIdsKnown(m) && n <= |m.random|
    decreases |m.random| - n
  {
    if n == |m.random| || |picked| >= GetAddrLimit(|m.random|) then (m, picked) else
    var w := SwapRandom(m, n, DrawFrom(n, |m.random|, draw));
    GetAddrFrom(w, n + 1, if IsTerrible(w.info[w.random[n]], now) then picked else picked + [w.random[n]], draw, now)
  }

  ghost function GetAddr(m: Manager, draw: nat -> nat, now: int): (Manager, seq<int>)
    requires RandomIdsKnown(m)
  {
    GetAddrFrom(m, 0, [], draw, now)
  }

  /** Successive readings of the clock. */
  type Clock = nat -> int

  /**
   One pending collision: the entry waiting for a "tried" slot gets it, gives up or keeps waiting.
   Each test, and each success recorded, reads the clock anew.
   */
  ghost function ResolveOne(m: Manager, id: int, clock: Clock): Manager
    requires Usable(m)
  {
    var gone := m.collisions - {id};
    if id !in m.info then m.(collisions := gone) else
    var i := m.info[id];
    var x := m.hashing.TriedSlot(i.service);
    if !m.hashing.valid(i.service.ip) then m.(collisions := gone) else
    if x !in m.triedTable then Good(m, i.service, false, clock(0)).(collisions := gone) else
    var rival := m.info[m.triedTable[x]];
    if clock(0) - rival.lastSuccess < REPLACEMENT_HOURS * 60 * 60 then m.(collisions := gone)
    else if clock(1) - rival.lastTry < REPLACEMENT_HOURS * 60 * 60 then
      if clock(2) - rival.lastTry > 60 then Good(m, i.service, false, clock(3)).(collisions := gone) else m
    else if clock(2) - i.lastSuccess > TEST_WINDOW then Good(m, i.service, false, clock(3)).(collisions := gone)
    else m
  }

  const DEFAULT_INFO: Info := Info(Service(0, 0), 0, 0, {}, 0, 0, 0, 0, 0, false, -1)

  /**
   The occupant of the "tried" slot a given pending collision waits for, if the collision is still known.
   An unknown id is looked up with operator[], which would add an empty entry under it.
   */
  ghost function SelectTriedCollision(m: Manager, id: int): (Manager, Option<Info>) {
    if id !in m.info then (m.(collisions := m.collisions - {id}), None) else
    var x := m.hashing.TriedSlot(m.info[id].service);
    var rival := if x in m.triedTable then m.triedTable[x] else -1;
    if rival in m.info then (m, Some(m.info[rival]))
    else (SetInfo(m, rival, DEFAULT_INFO), Some(DEFAULT_INFO))
  }
}
