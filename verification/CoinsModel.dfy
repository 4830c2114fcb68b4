/**
 The stack of coin views: a database and any number of write-back caches above
 it, as a value, with each operation as a function.  Module CoinsView refines
 these functions; the lemmas here show that every level of the stack behaves as
 one flat map from outpoints to unspent coins.
 */
module CoinsModel {
  import opened Options

  datatype OutPoint = OutPoint(hash: nat, n: nat)

  /** A transaction output with where it comes from; value -1 marks a spent coin. */
  datatype Coin = Coin(value: int, script: seq<nat>, coinBase: bool, coinStake: bool, height: nat)
  {
    predicate IsSpent() { value == -1 }
  }

  const EMPTY_COIN: Coin := Coin(-1, [], false, false, 0)
  const OP_RETURN: nat := 0x6a
  const MAX_SCRIPT_SIZE: nat := 10000

  predicate IsUnspendable(script: seq<nat>) {
    (|script| > 0 && script[0] == OP_RETURN) || |script| > MAX_SCRIPT_SIZE
  }

  /** A coin in one cache, with its two flags. */
  datatype Entry = Entry(coin: Coin, dirty: bool, isFresh: bool)

  type Entries = map<OutPoint, Entry>

  datatype View =
    | Db(coins: map<OutPoint, Coin>)
    | Cache(entries: Entries, base: View)

  function Get<K, V>(m: map<K, V>, k: K): Option<V> {
    if k in m then Some(m[k]) else None
  }

  // --------------------------------------------------------------- operations

  /** The coin a view returns for an outpoint, filling every cache on the way. */
  function GetCoin(v: View, o: OutPoint): (View, Option<Coin>)
    decreases v, 1
  {
    match v
    case Db(coins) => (v, Get(coins, o))
    case Cache(_, _) =>
      var (v', e) := FetchCoin(v, o);
      (v', if e.Some? && !e.value.coin.IsSpent() then Some(e.value.coin) else None)
  }

  /** The entry of a cache for an outpoint, fetched from the base if the cache has none. */
  function FetchCoin(v: View, o: OutPoint): (View, Option<Entry>)
    requires v.Cache?
    decreases v, 0
  {
    if o in v.entries then (v, Some(v.entries[o])) else
    var (base', c) := GetCoin(v.base, o);
    if c.None? then (Cache(v.entries, base'), None) else
    var e := Entry(c.value, false, c.value.IsSpent());
    (Cache(v.entries[o := e], base'), Some(e))
  }

  /** Whether AddCoin throws: it was told that nothing is overwritten, but the cache holds an unspent coin. */
  predicate AddThrows(v: View, o: OutPoint, coin: Coin, possibleOverwrite: bool)
    requires v.Cache?
  {
    !IsUnspendable(coin.script) && !possibleOverwrite && o in v.entries && !v.entries[o].coin.IsSpent()
  }

  function AddCoin(v: View, o: OutPoint, coin: Coin, possibleOverwrite: bool): View
    requires v.Cache?
  {
    if IsUnspendable(coin.script) then v else
    var prior := if o in v.entries then v.entries[o] else Entry(EMPTY_COIN, false, false);
    var isFresh := !possibleOverwrite && !prior.dirty;
    Cache(v.entries[o := Entry(coin, true, prior.isFresh || isFresh)], v.base)
  }

  /** Spends a coin; the result is the coin that was in the entry, if there was an entry. */
  function SpendCoin(v: View, o: OutPoint): (View, Option<Coin>)
    requires v.Cache?
  {
    var (w, e) := FetchCoin(v, o);
    if e.None? then (w, None)
    else if e.value.isFresh then (Cache(w.entries - {o}, w.base), Some(e.value.coin))
    else (Cache(w.entries[o := Entry(EMPTY_COIN, true, false)], w.base), Some(e.value.coin))
  }

  function Uncache(v: View, o: OutPoint): View
    requires v.Cache?
  {
    if o in v.entries && !v.entries[o].dirty && !v.entries[o].isFresh then Cache(v.entries - {o}, v.base) else v
  }

  /** What a written entry makes of the entry of the cache below it, if any. */
  function MergeEntry(ours: Option<Entry>, theirs: Entry): Option<Entry> {
    match ours
    case None =>
      if theirs.isFresh && theirs.coin.IsSpent() then None else Some(Entry(theirs.coin, true, theirs.isFresh))
    case Some(u) =>
      if u.isFresh && theirs.coin.IsSpent() then None else Some(Entry(theirs.coin, true, u.isFresh))
  }

  function MergedAt(ours: Entries, theirs: Entries, o: OutPoint): Option<Entry> {
    if o in theirs && theirs[o].dirty then MergeEntry(Get(ours, o), theirs[o]) else Get(ours, o)
  }

  /** Whether a written entry claims to be absent from a cache that holds it unspent. */
  predicate Misapplied(ours: Entries, theirs: Entries, o: OutPoint) {
    o in theirs && theirs[o].dirty && theirs[o].isFresh && o in ours && !ours[o].coin.IsSpent()
  }

  function Merged(ours: Entries, theirs: Entries): Entries {
    map o | o in ours.Keys + theirs.Keys && MergedAt(ours, theirs, o).Some? :: MergedAt(ours, theirs, o).value
  }

  function WrittenAt(coins: map<OutPoint, Coin>, theirs: Entries, o: OutPoint): Option<Coin> {
    if o in theirs && theirs[o].dirty
    then if theirs[o].coin.IsSpent() then None else Some(theirs[o].coin)
    else Get(coins, o)
  }

  function Written(coins: map<OutPoint, Coin>, theirs: Entries): map<OutPoint, Coin> {
    map o | o in coins.Keys + theirs.Keys && WrittenAt(coins, theirs, o).Some? :: WrittenAt(coins, theirs, o).value
  }

  function BatchWrite(v: View, theirs: Entries): View {
    match v
    case Db(coins) => Db(Written(coins, theirs))
    case Cache(ours, base) => Cache(Merged(ours, theirs), base)
  }

  function Flush(v: View): View
    requires v.Cache?
  {
    Cache(map[], BatchWrite(v.base, v.entries))
  }

  // ----------------------------------------------------------------- meaning

  /** The unspent coin a view stands for at an outpoint. */
  function Lookup(v: View, o: OutPoint): Option<Coin> {
    match v
    case Db(coins) => Get(coins, o)
    case Cache(entries, base) =>
      if o !in entries then Lookup(base, o)
      else if entries[o].coin.IsSpent() then None
      else Some(entries[o].coin)
  }

  /** The flat map a view stands for. */
  function Flat(v: View): map<OutPoint, Coin> {
    match v
    case Db(coins) => coins
    case Cache(entries, base) =>
      var below := Flat(base);
      map o | o in below.Keys + entries.Keys && Lookup(v, o).Some? :: Lookup(v, o).value
  }

  lemma {:induction false} FlatIsLookup(v: View, o: OutPoint)
    ensures Get(Flat(v), o) == Lookup(v, o)
  {
    if v.Cache? {
      FlatIsLookup(v.base, o);
    }
  }

  /** The five states an entry can be in. */
  predicate Legal(e: Entry) {
    if e.coin.IsSpent() then e.isFresh != e.dirty else (e.isFresh ==> e.dirty)
  }

  /** What the flags of an entry promise, given the coin of the view below. */
  predicate EntryOk(e: Entry, below: Option<Coin>) {
    && Legal(e)
    && (!e.dirty ==> below == if e.coin.IsSpent() then None else Some(e.coin))
    && (e.isFresh ==> below.None?)
  }

  ghost predicate Inv(v: View) {
    match v
    case Db(coins) => forall o | o in coins :: !coins[o].IsSpent()
    case Cache(entries, base) => Inv(base) && forall o | o in entries :: EntryOk(entries[o], Lookup(base, o))
  }
}
