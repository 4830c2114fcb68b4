/**
 Saving and loading the address manager.  The stream is a sequence of tokens in
 the order the program writes them; loading reads them back and rebuilds every
 table, index and counter that the stream does not hold.
 */
module AddrManStream {
  import opened Options
  import opened AddrManModel
  import opened AddrManInvariant
  import Sets

  /** What is saved of an entry. */
  datatype Entry = Entry(service: Service, source: NetAddr, time: nat, services: set<nat>, lastSuccess: int,
                         attempts: int)

  /** One item of the stream.  `KeyToken` stands for the secret key, `SumToken` for the checksum of the AS map. */
  datatype Token =
    | ByteToken(byte: nat)
    | KeyToken(hashing: Hashing)
    | IntToken(value: int)
    | EntryToken(entry: Entry)
    | SumToken(sum: nat)

  const FORMAT_V1_DETERMINISTIC: nat := 1
  const FORMAT_V2_ASMAP: nat := 2
  const FORMAT_V3_BIP155: nat := 3
  const BIT30: nat := 0x4000_0000

  function Persist(i: Info): Entry {
    Entry(i.service, i.source, i.time, i.services, i.lastSuccess, i.attempts)
  }

  /** An entry as it is right after reading it; the fields that live in memory only have their defaults. */
  function Loaded(e: Entry, refCount: int, inTried: bool, randomPos: int): Info {
    Info(e.service, e.source, e.time, e.services, 0, 0, e.lastSuccess, e.attempts, refCount, inTried, randomPos)
  }

  // ------------------------------------------------------------------- saving

  /** The ids with a reference in the new table, in iteration order. */
  ghost function NewOrder(m: Manager, order: seq<int>): (r: seq<int>)
    requires forall k | 0 <= k < |order| :: order[k] in m.info
    ensures forall k | 0 <= k < |r| :: r[k] in m.info && r[k] in order && m.info[r[k]].refCount != 0
  {
    if order == [] then [] else
    var n := |order| - 1;
    NewOrder(m, order[..n]) + if m.info[order[n]].refCount != 0 then [order[n]] else []
  }

  /** The ids in the tried table, in iteration order. */
  ghost function TriedOrder(m: Manager, order: seq<int>): (r: seq<int>)
    requires forall k | 0 <= k < |order| :: order[k] in m.info
    ensures forall k | 0 <= k < |r| :: r[k] in m.info && r[k] in order && m.info[r[k]].inTried
  {
    if order == [] then [] else
    var n := |order| - 1;
    TriedOrder(m, order[..n]) + if m.info[order[n]].inTried then [order[n]] else []
  }

  ghost function EntryTokens(m: Manager, ids: seq<int>): seq<Token>
    requires forall k | 0 <= k < |ids| :: ids[k] in m.info
  {
    seq(|ids|, k requires 0 <= k < |ids| => EntryToken(Persist(m.info[ids[k]])))
  }

  /** The position of an id in a list. */
  ghost function IndexOf(ids: seq<int>, id: int): nat {
    if ids == [] || ids[0] == id then 0 else 1 + IndexOf(ids[1..], id)
  }

  /** The occupied cells of a bucket below position n, in order. */
  ghost function CellsOf(t: map<Slot, int>, bucket: nat, n: nat): (r: seq<Slot>)
    ensures forall k | 0 <= k < |r| :: r[k] in t && r[k].bucket == bucket && r[k].pos < n
  {
    if n == 0 then [] else
    CellsOf(t, bucket, n - 1) + if Slot(bucket, n - 1) in t then [Slot(bucket, n - 1)] else []
  }

  ghost function IndexTokens(t: map<Slot, int>, cells: seq<Slot>, ids: seq<int>): seq<Token>
    requires forall k | 0 <= k < |cells| :: cells[k] in t
  {
    seq(|cells|, k requires 0 <= k < |cells| => IntToken(IndexOf(ids, t[cells[k]])))
  }

  /** For each new bucket from a given one on: the number of occupied cells, followed by the entries in them. */
  ghost function BucketTokens(t: map<Slot, int>, ids: seq<int>, bucket: nat): seq<Token>
    decreases NEW_BUCKET_COUNT - bucket
  {
    if bucket >= NEW_BUCKET_COUNT then [] else
    var cells := CellsOf(t, bucket, BUCKET_SIZE);
    [IntToken(|cells|)] + IndexTokens(t, cells, ids) + BucketTokens(t, ids, bucket + 1)
  }

  /** The saved manager, for a given iteration order of the entries and checksum of the AS map. */
  ghost function Save(m: Manager, order: seq<int>, sum: nat): seq<Token>
    requires forall k | 0 <= k < |order| :: order[k] in m.info
  {
    [ByteToken(FORMAT_V3_BIP155), ByteToken(32), KeyToken(m.hashing),
     IntToken(m.nNew), IntToken(m.nTried), IntToken(NEW_BUCKET_COUNT + BIT30)]
    + EntryTokens(m, NewOrder(m, order))
    + EntryTokens(m, TriedOrder(m, order))
    + BucketTokens(m.newTable, NewOrder(m, order), 0)
    + [SumToken(sum)]
  }

  // ------------------------------------------------------------------ reading

  function TakeEntries(ts: seq<Token>, n: nat): Option<(seq<Entry>, seq<Token>)> {
    if n == 0 then Some(([], ts))
    else if ts == [] || !ts[0].EntryToken? then None
    else match TakeEntries(ts[1..], n - 1)
      case None => None
      case Some((es, rest)) => Some(([ts[0].entry] + es, rest))
  }

  /** Reads n entry indexes of a bucket; those outside the saved entries are dropped. */
  function TakeIndexes(ts: seq<Token>, bucket: nat, n: nat, nNew: int): Option<(seq<(nat, int)>, seq<Token>)> {
    if n == 0 then Some(([], ts))
    else if ts == [] || !ts[0].IntToken? then None
    else match TakeIndexes(ts[1..], bucket, n - 1, nNew)
      case None => None
      case Some((es, rest)) => Some(((if 0 <= ts[0].value < nNew then [(bucket, ts[0].value)] else []) + es, rest))
  }

  /** Reads the buckets from a given one up to the saved number of buckets. */
  function TakeBuckets(ts: seq<Token>, bucket: nat, nBuckets: int, nNew: int): Option<(seq<(nat, int)>, seq<Token>)>
    decreases nBuckets - bucket
  {
    if bucket >= nBuckets then Some(([], ts))
    else if ts == [] || !ts[0].IntToken? then None
    else match TakeIndexes(ts[1..], bucket, Max0(ts[0].value), nNew)
      case None => None
      case Some((es, rest)) =>
        match TakeBuckets(rest, bucket + 1, nBuckets, nNew)
          case None => None
          case Some((es', rest')) => Some((es + es', rest'))
  }

  // --------------------------------------------------------------- rebuilding

  /** The manager after reading the new entries. */
  ghost function LoadNew(discriminatePorts: bool, hashing: Hashing, collisions: set<int>, es: seq<Entry>): (m: Manager)
    ensures RandomOk(m.info, m.random) && m.idCount == |es|
    ensures forall k | k in m.info :: 0 <= k < m.idCount
  {
    if es == [] then Empty(discriminatePorts, hashing).(collisions := collisions) else
    var n := |es| - 1;
    var w := LoadNew(discriminatePorts, hashing, collisions, es[..n]);
    PushRandomOk(w.info, w.random, n, Loaded(es[n], 0, false, |w.random|));
    w.(idCount := n + 1, nNew := n + 1,
       info := w.info[n := Loaded(es[n], 0, false, |w.random|)],
       addr := w.addr[es[n].service := n],
       random := w.random + [n])
  }

  /** Adds one tried entry, unless its slot is taken. */
  ghost function LoadOneTried(m: Manager, e: Entry): Manager {
    var x := m.hashing.TriedSlot(e.service);
    if x in m.triedTable then m else
    m.(idCount := m.idCount + 1,
       info := m.info[m.idCount := Loaded(e, 0, true, |m.random|)],
       addr := m.addr[e.service := m.idCount],
       random := m.random + [m.idCount],
       triedTable := m.triedTable[x := m.idCount],
       nTried := m.nTried + 1)
  }

  ghost function LoadTried(m: Manager, es: seq<Entry>): (m': Manager)
    requires RandomOk(m.info, m.random) && forall k | k in m.info :: 0 <= k < m.idCount
    ensures RandomOk(m'.info, m'.random) && forall k | k in m'.info :: 0 <= k < m'.idCount
    ensures m.info.Keys <= m'.info.Keys
  {
    if es == [] then m else
    var n := |es| - 1;
    var w := LoadTried(m, es[..n]);
    PushRandomOk(w.info, w.random, w.idCount, Loaded(es[n], 0, true, |w.random|));
    LoadOneTried(w, es[n])
  }

  /** Gives a new entry the slot it had, or else the one its own source selects, if that is free. */
  ghost function LoadSlot(m: Manager, restore: bool, bucket: nat, id: int): (m': Manager)
    requires id in m.info
    ensures m'.info.Keys == m.info.Keys && m'.random == m.random
    ensures forall k | k in m.info :: m'.info[k].randomPos == m.info[k].randomPos
  {
    var i := m.info[id];
    if i.refCount >= NEW_BUCKETS_PER_ADDRESS then m else
    var x := m.hashing.NewSlot(bucket, i.service);
    if restore && x !in m.newTable then PutNew(m, x, id) else
    var y := m.hashing.NewSlot(m.hashing.NewBucket(i.service, i.source), i.service);
    if y !in m.newTable then PutNew(m, y, id) else m
  }

  ghost function LoadSlots(m: Manager, restore: bool, es: seq<(nat, int)>): (m': Manager)
    requires forall k | 0 <= k < |es| :: es[k].1 in m.info
    ensures m'.info.Keys == m.info.Keys && m'.random == m.random
    ensures forall k | k in m.info :: m'.info[k].randomPos == m.info[k].randomPos
  {
    if es == [] then m else
    var n := |es| - 1;
    LoadSlot(LoadSlots(m, restore, es[..n]), restore, es[n].0, es[n].1)
  }

  /** Forgets, among the given ids in ascending order, those that got no slot. */
  ghost function Prune(m: Manager, pending: set<int>): Manager
    requires RandomOk(m.info, m.random) && pending <= m.info.Keys
    decreases |pending|
  {
    if pending == {} then m else
    var id := Sets.Least(pending);
    if m.info[id].inTried || m.info[id].refCount != 0 then Prune(m, pending - {id}) else
    DeleteRandomOk(m, id);
    Prune(Delete(m, id), pending - {id})
  }

  lemma DeleteRandomOk(m: Manager, id: int)
    requires RandomOk(m.info, m.random) && id in m.info
    ensures 0 <= m.info[id].randomPos < |m.random| && RandomIdsKnown(m)
    ensures Delete(m, id).info.Keys == m.info.Keys - {id}
    ensures RandomOk(Delete(m, id).info, Delete(m, id).random)
  {
    hide SwapRandom, RandomOk;
    SwapToLast(m, id);
    SwapRandomEffect(m, m.info[id].randomPos, |m.random| - 1);
    SwapRandomOk(m, m.info[id].randomPos, |m.random| - 1);
    var w := SwapRandom(m, m.info[id].randomPos, |m.random| - 1);
    PopRandomOk(w.info, w.random, id);
  }

  /** The value with its bit 30 flipped, for values below 2^31. */
  function FlipBit30(x: int): int {
    if (x / BIT30) % 2 == 0 then x + BIT30 else x - BIT30
  }

  /** Header of the stream, if it is one the program accepts. */
  datatype Header = Header(format: nat, hashing: Hashing, nNew: nat, nTried: nat, nBuckets: int)

  ghost function TakeHeader(ts: seq<Token>): Option<Header> {
    if |ts| < 6 || !ts[0].ByteToken? || !ts[1].ByteToken? || !ts[2].KeyToken?
       || !ts[3].IntToken? || !ts[4].IntToken? || !ts[5].IntToken? then None
    else if ts[0].byte > FORMAT_V3_BIP155 || ts[1].byte != 32 then None
    else if ts[3].value < 0 || ts[3].value > NEW_BUCKET_COUNT * BUCKET_SIZE then None
    else if ts[4].value < 0 || ts[4].value > TRIED_BUCKET_COUNT * BUCKET_SIZE then None
    else Some(Header(ts[0].byte, ts[2].hashing, ts[3].value, ts[4].value,
                     if ts[0].byte >= FORMAT_V1_DETERMINISTIC then FlipBit30(ts[5].value) else ts[5].value))
  }

  /** The parts of a stream after its header. */
  datatype Body = Body(news: seq<Entry>, trieds: seq<Entry>, slots: seq<(nat, int)>, sum: nat)

  ghost function TakeBody(ts: seq<Token>, h: Header): Option<Body> {
    match TakeEntries(ts, h.nNew)
    case None => None
    case Some((news, ts1)) =>
      match TakeEntries(ts1, h.nTried)
      case None => None
      case Some((trieds, ts2)) =>
        match TakeBuckets(ts2, 0, h.nBuckets, h.nNew)
        case None => None
        case Some((slots, ts3)) =>
          if h.format < FORMAT_V2_ASMAP then Some(Body(news, trieds, slots, 0))
          else if ts3 == [] || !ts3[0].SumToken? then None
          else Some(Body(news, trieds, slots, ts3[0].sum))
  }

  lemma {:induction false} LoadNewKnows(discriminatePorts: bool, hashing: Hashing, collisions: set<int>, es: seq<Entry>)
    ensures forall k: int | 0 <= k < |es| :: k in LoadNew(discriminatePorts, hashing, collisions, es).info
  {
    if es != [] {
      LoadNewKnows(discriminatePorts, hashing, collisions, es[..|es| - 1]);
    }
  }

  /** Every table, index and counter rebuilt from what was read. */
  ghost function Rebuild(discriminatePorts: bool, collisions: set<int>, hashing: Hashing, restore: bool,
                         b: Body): Manager
    requires forall k | 0 <= k < |b.slots| :: 0 <= b.slots[k].1 < |b.news|
  {
    LoadNewKnows(discriminatePorts, hashing, collisions, b.news);
    var w := LoadTried(LoadNew(discriminatePorts, hashing, collisions, b.news), b.trieds);
    var p := LoadSlots(w, restore, b.slots);
    RandomFrame(w.info, p.info, p.random);
    Prune(p, p.info.Keys)
  }

  lemma {:induction false} TakeEntriesLength(ts: seq<Token>, n: nat)
    ensures TakeEntries(ts, n).Some? ==> |TakeEntries(ts, n).value.0| == n
  {
    if n > 0 && ts != [] {
      TakeEntriesLength(ts[1..], n - 1);
    }
  }

  ghost predicate InRange(es: seq<(nat, int)>, n: int) {
    forall k | 0 <= k < |es| :: 0 <= es[k].1 < n
  }

  lemma {:induction false} TakeIndexesRange(ts: seq<Token>, bucket: nat, n: nat, nNew: int)
    ensures TakeIndexes(ts, bucket, n, nNew).Some? ==> InRange(TakeIndexes(ts, bucket, n, nNew).value.0, nNew)
  {
    if n > 0 && ts != [] {
      TakeIndexesRange(ts[1..], bucket, n - 1, nNew);
    }
  }

  lemma {:induction false} TakeBucketsRange(ts: seq<Token>, bucket: nat, nBuckets: int, nNew: int)
    ensures TakeBuckets(ts, bucket, nBuckets, nNew).Some? ==>
              InRange(TakeBuckets(ts, bucket, nBuckets, nNew).value.0, nNew)
    decreases nBuckets - bucket
  {
    if bucket < nBuckets && ts != [] && ts[0].IntToken? {
      var n := Max0(ts[0].value);
      TakeIndexesRange(ts[1..], bucket, n, nNew);
      match TakeIndexes(ts[1..], bucket, n, nNew)
      case None =>
      case Some((es, rest)) => TakeBucketsRange(rest, bucket + 1, nBuckets, nNew);
    }
  }

  lemma TakeBodyRange(ts: seq<Token>, h: Header)
    ensures TakeBody(ts, h).Some? ==>
              var b := TakeBody(ts, h).value; |b.news| == h.nNew && InRange(b.slots, |b.news|)
  {
    hide TakeEntries, TakeBuckets;
    TakeEntriesLength(ts, h.nNew);
    match TakeEntries(ts, h.nNew)
    case None =>
    case Some((news, ts1)) =>
      match TakeEntries(ts1, h.nTried)
      case None =>
      case Some((trieds, ts2)) => TakeBucketsRange(ts2, 0, h.nBuckets, h.nNew);
  }

  /**
   Loading: nothing for a stream the program rejects.  `rehash` gives the hashing that a saved key has
   under the AS map in use, and `sum` is the checksum of that map.
   */
  ghost function Load(ts: seq<Token>, discriminatePorts: bool, collisions: set<int>, rehash: Hashing -> Hashing,
                      sum: nat): Option<Manager> {
    match TakeHeader(ts)
    case None => None
    case Some(h) =>
      TakeBodyRange(ts[6..], h);
      match TakeBody(ts[6..], h)
      case None => None
      case Some(b) =>
        var restore := h.nBuckets == NEW_BUCKET_COUNT && b.sum == sum;
        Some(Rebuild(discriminatePorts, collisions, rehash(h.hashing), restore, b))
  }
}
