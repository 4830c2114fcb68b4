/**
 Compact blocks: the message made from a block, how a receiver turns it and the
 transactions it already has into a list of slots, and how the transactions it
 asked for complete the block.
 */
module CompactBlockModel {
  import opened Options
  import Sets

  datatype Tx = Tx(hash: nat, isNull: bool, body: nat)

  /** A transaction sent in full, with the number of positions skipped before it. */
  datatype Prefilled = Prefilled(index: nat, tx: Tx)

  datatype Message = Message(headerNull: bool, shortIds: seq<nat>, prefilled: seq<Prefilled>)

  const MAX_INDEX: nat := 0xFFFF

  type Slots = seq<Option<Tx>>

  function TxCount(m: Message): nat { |m.shortIds| + |m.prefilled| }

  /** What a peer can send: indexes of 16 bits, and no more transactions than they can number. */
  predicate Received(m: Message) {
    TxCount(m) <= MAX_INDEX && forall i | 0 <= i < |m.prefilled| :: m.prefilled[i].index <= MAX_INDEX
  }

  // -------------------------------------------------------- prefilled positions

  /** The position of a prefilled transaction. */
  function Position(m: Message, i: int): int
    requires -1 <= i < |m.prefilled|
  {
    if i < 0 then -1 else Position(m, i - 1) + m.prefilled[i].index + 1
  }

  /** Whether the first n prefilled transactions are acceptable. */
  ghost predicate Placeable(m: Message, n: nat)
    requires n <= |m.prefilled|
  {
    forall i | 0 <= i < n ::
      !m.prefilled[i].tx.isNull && Position(m, i) <= MAX_INDEX && Position(m, i) <= |m.shortIds| + i
  }

  /** For a message that a peer can send, the test against 65535 never decides: the other test implies it. */
  lemma IndexTestImplied(m: Message, n: nat)
    requires Received(m) && n <= |m.prefilled|
    ensures Placeable(m, n) <==>
              forall i | 0 <= i < n :: !m.prefilled[i].tx.isNull && Position(m, i) <= |m.shortIds| + i
  {
    forall i | 0 <= i < n && Position(m, i) <= |m.shortIds| + i
      ensures Position(m, i) <= MAX_INDEX
    {
    }
  }

  /** The slots after the first n prefilled transactions have been placed. */
  function Placed(m: Message, n: nat): (r: Slots)
    requires n <= |m.prefilled|
    ensures |r| == TxCount(m)
  {
    if n == 0 then seq(TxCount(m), _ => None) else
    var before := Placed(m, n - 1);
    if 0 <= Position(m, n - 1) < TxCount(m) then before[Position(m, n - 1) := Some(m.prefilled[n - 1].tx)] else before
  }

  lemma {:induction false} PositionsIncrease(m: Message, i: int, j: int)
    requires -1 <= i < j < |m.prefilled|
    ensures -1 <= Position(m, i) < Position(m, j)
    decreases j
  {
    if i < j - 1 {
      PositionsIncrease(m, i, j - 1);
    } else if i >= 0 {
      PositionsIncrease(m, -1, i);
    }
  }

  /** The prefilled transactions are at their positions, and nothing else is. */
  lemma {:induction false} PlacedAt(m: Message, n: nat, p: nat)
    requires n <= |m.prefilled| && Placeable(m, n) && p < TxCount(m)
    ensures (exists i :: 0 <= i < n && Position(m, i) == p) <==> Placed(m, n)[p].Some?
    ensures forall i | 0 <= i < n && Position(m, i) == p :: Placed(m, n)[p] == Some(m.prefilled[i].tx)
  {
    if n > 0 {
      PlacedAt(m, n - 1, p);
      PositionsIncrease(m, -1, n - 1);
      forall i | 0 <= i < n - 1
        ensures Position(m, i) < Position(m, n - 1)
      {
        PositionsIncrease(m, i, n - 1);
      }
    }
  }

  // ------------------------------------------------------------- empty positions

  /** How many slots from p on are empty. */
  function EmptyFrom(slots: Slots, p: nat): nat
    requires p <= |slots|
    decreases |slots| - p
  {
    if p == |slots| then 0 else EmptyFrom(slots, p + 1) + if slots[p].None? then 1 else 0
  }

  /** The first empty slot from p on, or the end. */
  function NextEmpty(slots: Slots, p: nat): (r: nat)
    requires p <= |slots|
    ensures p <= r <= |slots| && (r < |slots| ==> slots[r].None?) && forall q | p <= q < r :: slots[q].Some?
    ensures r < |slots| <==> EmptyFrom(slots, p) > 0
    ensures EmptyFrom(slots, r) == EmptyFrom(slots, p)
    decreases |slots| - p
  {
    if p == |slots| || slots[p].None? then p else NextEmpty(slots, p + 1)
  }

  /** The i-th empty slot, or the end. */
  function NthEmpty(slots: Slots, i: nat): (r: nat)
    ensures r <= |slots|
  {
    if i == 0 then NextEmpty(slots, 0)
    else if NthEmpty(slots, i - 1) == |slots| then |slots|
    else NextEmpty(slots, NthEmpty(slots, i - 1) + 1)
  }

  lemma {:induction false} NthEmptyCount(slots: Slots, i: nat)
    requires i < EmptyFrom(slots, 0)
    ensures NthEmpty(slots, i) < |slots| && slots[NthEmpty(slots, i)].None?
    ensures EmptyFrom(slots, NthEmpty(slots, i)) == EmptyFrom(slots, 0) - i
  {
    if i > 0 {
      NthEmptyCount(slots, i - 1);
    }
  }

  lemma {:induction false} EmptyFromMono(slots: Slots, p: nat, q: nat)
    requires p <= q <= |slots|
    ensures EmptyFrom(slots, q) <= EmptyFrom(slots, p)
    ensures p < q && slots[p].None? ==> EmptyFrom(slots, q) < EmptyFrom(slots, p)
    decreases q - p
  {
    if p < q {
      EmptyFromMono(slots, p + 1, q);
    }
  }

  /** Every empty slot is the i-th for exactly one i. */
  lemma EmptyIsNth(slots: Slots, p: nat) returns (i: nat)
    requires p < |slots| && slots[p].None?
    ensures i < EmptyFrom(slots, 0) && NthEmpty(slots, i) == p
  {
    EmptyFromMono(slots, 0, p);
    i := EmptyFrom(slots, 0) - EmptyFrom(slots, p);
    EmptyFromMono(slots, p, p + 1);
    NthEmptyCount(slots, i);
    var q := NthEmpty(slots, i);
    if q < p {
      EmptyFromMono(slots, q, p);
    } else if p < q {
      EmptyFromMono(slots, p, q);
    }
  }

  lemma NthEmptyDistinct(slots: Slots, i: nat, j: nat)
    requires i < j < EmptyFrom(slots, 0)
    ensures NthEmpty(slots, i) != NthEmpty(slots, j)
  {
    NthEmptyCount(slots, i);
    NthEmptyCount(slots, j);
  }

  lemma {:induction false} FillOne(slots: Slots, p: nat, tx: Tx, q: nat)
    requires p < |slots| && slots[p].None? && q <= |slots|
    ensures EmptyFrom(slots[p := Some(tx)], q) == EmptyFrom(slots, q) - if q <= p then 1 else 0
    decreases |slots| - q
  {
    if q < |slots| {
      FillOne(slots, p, tx, q + 1);
    }
  }

  lemma {:induction false} AllEmpty(n: nat, q: nat)
    requires q <= n
    ensures EmptyFrom(seq(n, _ => None), q) == n - q
    decreases n - q
  {
    if q < n {
      AllEmpty(n, q + 1);
    }
  }

  /** Placing the prefilled transactions leaves exactly one empty slot for each short id. */
  lemma {:induction false} EmptyAfterPlacing(m: Message, n: nat)
    requires n <= |m.prefilled| && Placeable(m, n)
    ensures EmptyFrom(Placed(m, n), 0) == TxCount(m) - n
  {
    if n == 0 {
      AllEmpty(TxCount(m), 0);
    } else {
      EmptyAfterPlacing(m, n - 1);
      var p := Position(m, n - 1);
      PositionsIncrease(m, -1, n - 1);
      PlacedAt(m, n - 1, p);
      forall i | 0 <= i < n - 1
        ensures Position(m, i) != p
      {
        PositionsIncrease(m, i, n - 1);
      }
      FillOne(Placed(m, n - 1), p, m.prefilled[n - 1].tx, 0);
    }
  }

  // ------------------------------------------------------------ short ids' slots

  /** The slot of each short id; a repeated id keeps its last slot. */
  function SlotMap(slots: Slots, ids: seq<nat>, n: nat): map<nat, nat>
    requires n <= |ids|
  {
    if n == 0 then map[] else SlotMap(slots, ids, n - 1)[ids[n - 1] := NthEmpty(slots, n - 1)]
  }

  lemma {:induction false} SlotMapKeys(slots: Slots, ids: seq<nat>, n: nat)
    requires n <= |ids|
    ensures forall id :: id in SlotMap(slots, ids, n) <==> id in ids[..n]
    ensures |SlotMap(slots, ids, n)| <= n
  {
    if n > 0 {
      SlotMapKeys(slots, ids, n - 1);
      assert ids[..n] == ids[..n - 1] + [ids[n - 1]];
    }
  }

  ghost predicate Distinct(ids: seq<nat>, n: nat)
    requires n <= |ids|
  {
    forall i, j | 0 <= i < j < n :: ids[i] != ids[j]
  }

  lemma DistinctStep(ids: seq<nat>, n: nat)
    requires 0 < n <= |ids|
    ensures Distinct(ids, n) <==> Distinct(ids, n - 1) && ids[n - 1] !in ids[..n - 1]
  {
    if ids[n - 1] in ids[..n - 1] {
      var i :| 0 <= i < n - 1 && ids[..n - 1][i] == ids[n - 1];
      assert ids[i] == ids[n - 1];
    } else {
      forall i | 0 <= i < n - 1
        ensures ids[i] != ids[n - 1]
      {
        assert ids[..n - 1][i] == ids[i];
      }
    }
  }

  lemma SizeStep(m: map<nat, nat>, id: nat, p: nat)
    ensures |m[id := p]| == |m| + if id in m then 0 else 1
  {
    if id in m {
      assert m[id := p].Keys == m.Keys;
    } else {
      assert m[id := p].Keys == m.Keys + {id};
    }
  }

  /** The map is as large as the list exactly when no short id repeats. */
  lemma {:induction false} SlotMapExact(slots: Slots, ids: seq<nat>, n: nat)
    requires n <= |ids|
    ensures |SlotMap(slots, ids, n)| == n <==> Distinct(ids, n)
  {
    hide Distinct, NthEmpty;
    if n == 0 {
      DistinctNone(ids);
    } else {
      SlotMapExact(slots, ids, n - 1);
      SlotMapKeys(slots, ids, n - 1);
      DistinctStep(ids, n);
      SizeStep(SlotMap(slots, ids, n - 1), ids[n - 1], NthEmpty(slots, n - 1));
    }
  }

  lemma DistinctNone(ids: seq<nat>)
    ensures Distinct(ids, 0)
  {
  }

  /** Short ids that do not repeat each get their own slot. */
  lemma {:induction false} SlotMapPlaces(slots: Slots, ids: seq<nat>, n: nat, i: nat)
    requires i < n <= |ids| && Distinct(ids, n)
    ensures ids[i] in SlotMap(slots, ids, n) && SlotMap(slots, ids, n)[ids[i]] == NthEmpty(slots, i)
    decreases n
  {
    hide NthEmpty;
    if i < n - 1 {
      SlotMapPlaces(slots, ids, n - 1, i);
    }
  }

  // ------------------------------------------------ transactions already at hand

  /** Slots, which of them were filled once, and how many are filled now. */
  datatype Search = Search(slots: Slots, have: seq<bool>, count: int, extraCount: int)

  /** A transaction with the number its short id is computed from. */
  datatype Offer = Offer(id: nat, tx: Tx)

  predicate Fits(places: map<nat, nat>, s: Search) {
    |s.have| == |s.slots| && forall id | id in places :: places[id] < |s.slots|
  }

  /** A transaction of the memory pool: fills its slot the first time, empties it the second. */
  function FromPool(places: map<nat, nat>, s: Search, o: Offer): Search
    requires Fits(places, s)
  {
    if o.id !in places then s else
    var p := places[o.id];
    if !s.have[p] then s.(slots := s.slots[p := Some(o.tx)], have := s.have[p := true], count := s.count + 1)
    else if s.slots[p].Some? then s.(slots := s.slots[p := None], count := s.count - 1)
    else s
  }

  /** An extra transaction: as above, but meeting the same transaction again changes nothing. */
  function FromExtra(places: map<nat, nat>, s: Search, o: Offer): Search
    requires Fits(places, s)
  {
    if o.id !in places then s else
    var p := places[o.id];
    if !s.have[p] then
      s.(slots := s.slots[p := Some(o.tx)], have := s.have[p := true], count := s.count + 1,
         extraCount := s.extraCount + 1)
    else if s.slots[p].Some? && s.slots[p].value.hash != o.tx.hash then
      s.(slots := s.slots[p := None], count := s.count - 1, extraCount := s.extraCount - 1)
    else s
  }

  function Step(places: map<nat, nat>, s: Search, o: Offer, extra: bool): (r: Search)
    requires Fits(places, s)
    ensures Fits(places, r)
  {
    if extra then FromExtra(places, s, o) else FromPool(places, s, o)
  }

  /** Goes through offers from the i-th on, and stops as soon as every short id has its transaction. */
  function Scan(places: map<nat, nat>, s: Search, offers: seq<Offer>, i: nat, extra: bool): (r: Search)
    requires Fits(places, s) && i <= |offers|
    ensures Fits(places, r)
    decreases |offers| - i
  {
    if i == |offers| then s else
    var t := Step(places, s, offers[i], extra);
    if t.count == |places| then t else Scan(places, t, offers, i + 1, extra)
  }

  /** What makes the search right: only offers fill slots, only those of short ids, and the count is exact. */
  ghost predicate SearchOk(places: map<nat, nat>, start: Slots, s: Search, offers: set<Offer>) {
    && Fits(places, s) && |s.slots| == |start|
    && (forall p | 0 <= p < |start| && p !in places.Values :: s.slots[p] == start[p])
    && (forall id | id in places ::
          s.slots[places[id]].Some? ==> s.have[places[id]] && Offer(id, s.slots[places[id]].value) in offers)
    && s.count == |Filled(places, s)|
  }

  /** The short ids whose slots are filled. */
  ghost function Filled(places: map<nat, nat>, s: Search): set<nat>
    requires Fits(places, s)
  {
    set id | id in places && s.slots[places[id]].Some?
  }

  predicate Injective(places: map<nat, nat>) {
    forall a, b | a in places && b in places && a != b :: places[a] != places[b]
  }

  lemma StepOk(places: map<nat, nat>, start: Slots, s: Search, o: Offer, extra: bool, offers: set<Offer>)
    requires SearchOk(places, start, s, offers) && Injective(places) && o in offers
    ensures SearchOk(places, start, Step(places, s, o, extra), offers)
  {
    hide SearchOk, Injective;
    SearchFits(places, start, s, offers);
    var t := Step(places, s, o, extra);
    if o.id in places {
      var p := places[o.id];
      if !s.have[p] {
        FillOk(places, start, s, t, o, offers);
      } else if s.slots[p].Some? {
        if t.slots[p].None? {
          EmptyOk(places, start, s, t, o, offers);
        }
      }
    }
  }

  lemma FillOk(places: map<nat, nat>, start: Slots, s: Search, t: Search, o: Offer, offers: set<Offer>)
    requires SearchOk(places, start, s, offers) && Injective(places) && o in offers && o.id in places
    requires var p := places[o.id];
             && !s.have[p]
             && t.slots == s.slots[p := Some(o.tx)] && t.have == s.have[p := true] && t.count == s.count + 1
    ensures SearchOk(places, start, t, offers)
  {
    var p := places[o.id];
    OthersKept(places, s, t, o.id);
    forall id
      ensures id in Filled(places, t) <==> id in Filled(places, s) + {o.id}
    {
    }
    assert o.id !in Filled(places, s);
    forall id | id in places && t.slots[places[id]].Some?
      ensures t.have[places[id]] && Offer(id, t.slots[places[id]].value) in offers
    {
      assert id == o.id ==> Offer(id, t.slots[places[id]].value) == o;
    }
    assert Filled(places, t) == Filled(places, s) + {o.id};
  }

  lemma EmptyOk(places: map<nat, nat>, start: Slots, s: Search, t: Search, o: Offer, offers: set<Offer>)
    requires SearchOk(places, start, s, offers) && Injective(places) && o.id in places
    requires var p := places[o.id];
             && s.slots[p].Some?
             && t.slots == s.slots[p := None] && t.have == s.have && t.count == s.count - 1
    ensures SearchOk(places, start, t, offers)
  {
    OthersKept(places, s, t, o.id);
    forall id
      ensures id in Filled(places, t) <==> id in Filled(places, s) - {o.id}
    {
    }
    assert o.id in Filled(places, s);
    assert Filled(places, t) == Filled(places, s) - {o.id};
  }

  lemma OthersKept(places: map<nat, nat>, s: Search, t: Search, id: nat)
    requires Injective(places) && id in places && Fits(places, s) && Fits(places, t) && |s.slots| == |t.slots|
    requires forall p | 0 <= p < |s.slots| && p != places[id] :: t.slots[p] == s.slots[p] && t.have[p] == s.have[p]
    ensures forall x | x in places && x != id ::
              t.slots[places[x]] == s.slots[places[x]] && t.have[places[x]] == s.have[places[x]]
  {
  }

  lemma {:induction false} ScanOk(places: map<nat, nat>, start: Slots, s: Search, list: seq<Offer>, i: nat,
                                  extra: bool, offers: set<Offer>)
    requires SearchOk(places, start, s, offers) && Injective(places) && i <= |list|
    requires forall o | o in list :: o in offers
    ensures SearchOk(places, start, Scan(places, s, list, i, extra), offers)
    decreases |list| - i
  {
    hide SearchOk, Injective, Step;
    SearchFits(places, start, s, offers);
    if i < |list| {
      StepOk(places, start, s, list[i], extra, offers);
      var t := Step(places, s, list[i], extra);
      if t.count != |places| {
        ScanOk(places, start, t, list, i + 1, extra, offers);
      }
    }
  }

  /** A short id that one transaction of a list matches, and no other, gets a transaction. */
  lemma {:induction false} ScanFinds(places: map<nat, nat>, start: Slots, s: Search, list: seq<Offer>, i: nat,
                                     extra: bool, offers: set<Offer>, k: nat)
    requires SearchOk(places, start, s, offers) && Injective(places) && forall o | o in list :: o in offers
    requires i <= k < |list| && list[k].id in places && !s.have[places[list[k].id]]
    requires forall j | i <= j < |list| && j != k :: list[j].id != list[k].id
    ensures Scan(places, s, list, i, extra).slots[places[list[k].id]].Some?
    decreases |list| - i
  {
    hide SearchOk, Injective, Step, Scan;
    var id := list[k].id;
    SearchFits(places, start, s, offers);
    ScanStep(places, s, list, i, extra);
    StepOk(places, start, s, list[i], extra, offers);
    var t := Step(places, s, list[i], extra);
    SearchFits(places, start, t, offers);
    if t.count == |places| {
      AllFilled(places, start, t, offers, id);
    } else if i == k {
      FirstOfferFills(places, s, list[k], extra);
      ScanKeeps(places, start, t, list, i + 1, extra, offers, id);
    } else {
      OtherOffer(places, s, list[i], extra, id);
      ScanFinds(places, start, t, list, i + 1, extra, offers, k);
    }
  }

  lemma ScanStep(places: map<nat, nat>, s: Search, list: seq<Offer>, i: nat, extra: bool)
    requires Fits(places, s) && i < |list|
    ensures var t := Step(places, s, list[i], extra);
            Scan(places, s, list, i, extra) == if t.count == |places| then t else Scan(places, t, list, i + 1, extra)
  {
    hide Step;
  }

  /** The search stops early only when every short id has its transaction. */
  lemma AllFilled(places: map<nat, nat>, start: Slots, s: Search, offers: set<Offer>, id: nat)
    requires SearchOk(places, start, s, offers) && s.count == |places| && id in places
    ensures s.slots[places[id]].Some?
  {
    var filled := Filled(places, s);
    assert filled <= places.Keys;
    if id !in filled {
      Sets.SubsetSize(filled, places.Keys - {id});
    }
  }

  lemma FirstOfferFills(places: map<nat, nat>, s: Search, o: Offer, extra: bool)
    requires Fits(places, s) && o.id in places && !s.have[places[o.id]]
    ensures Step(places, s, o, extra).slots[places[o.id]] == Some(o.tx)
  {
  }

  lemma OtherOffer(places: map<nat, nat>, s: Search, o: Offer, extra: bool, id: nat)
    requires Fits(places, s) && Injective(places) && id in places && o.id != id
    ensures var t := Step(places, s, o, extra);
            t.slots[places[id]] == s.slots[places[id]] && t.have[places[id]] == s.have[places[id]]
  {
  }

  /** Offers for other short ids leave a slot alone. */
  lemma {:induction false} ScanKeeps(places: map<nat, nat>, start: Slots, s: Search, list: seq<Offer>, i: nat,
                                     extra: bool, offers: set<Offer>, id: nat)
    requires SearchOk(places, start, s, offers) && Injective(places) && forall o | o in list :: o in offers
    requires i <= |list| && id in places && s.slots[places[id]].Some?
    requires forall j | i <= j < |list| :: list[j].id != id
    ensures Scan(places, s, list, i, extra).slots[places[id]] == s.slots[places[id]]
    decreases |list| - i
  {
    hide SearchOk, Injective, Step;
    SearchFits(places, start, s, offers);
    if i < |list| {
      StepOk(places, start, s, list[i], extra, offers);
      OtherOffer(places, s, list[i], extra, id);
      var t := Step(places, s, list[i], extra);
      SearchFits(places, start, t, offers);
      if t.count != |places| {
        ScanKeeps(places, start, t, list, i + 1, extra, offers, id);
      }
    }
  }

  /** Offers of a list for other short ids leave it open whether a slot was ever filled. */
  lemma {:induction false} ScanIgnores(places: map<nat, nat>, s: Search, list: seq<Offer>, i: nat, extra: bool, id: nat)
    requires Fits(places, s) && Injective(places) && i <= |list| && id in places && !s.have[places[id]]
    requires forall j | i <= j < |list| :: list[j].id != id
    ensures !Scan(places, s, list, i, extra).have[places[id]]
    decreases |list| - i
  {
    hide Injective, Step;
    if i < |list| {
      OtherOffer(places, s, list[i], extra, id);
      ScanIgnores(places, Step(places, s, list[i], extra), list, i + 1, extra, id);
    }
  }

  /** An extra transaction for a slot that was never filled fills it; one with the hash of the slot leaves it filled. */
  lemma ExtraFills(places: map<nat, nat>, s: Search, o: Offer)
    requires Fits(places, s) && o.id in places
    requires s.slots[places[o.id]].Some? ==> s.slots[places[o.id]].value.hash == o.tx.hash
    requires s.slots[places[o.id]].Some? || !s.have[places[o.id]]
    ensures Step(places, s, o, true).slots[places[o.id]].Some?
  {
  }

  /** The extra transactions fill a slot, or leave it filled, when all that match its short id are the same. */
  lemma {:induction false} ScanExtra(places: map<nat, nat>, start: Slots, s: Search, list: seq<Offer>, i: nat,
                                     offers: set<Offer>, id: nat, hash: nat)
    requires SearchOk(places, start, s, offers) && Injective(places) && forall o | o in list :: o in offers
    requires i <= |list| && id in places && OneHash(offers, id, hash)
    requires || s.slots[places[id]].Some?
             || (!s.have[places[id]] && exists j :: i <= j < |list| && list[j].id == id)
    ensures Scan(places, s, list, i, true).slots[places[id]].Some?
    decreases |list| - i
  {
    hide SearchOk, Injective, Step, Scan, OneHash;
    SearchFits(places, start, s, offers);
    if i == |list| {
      ScanEnd(places, s, list, true);
    } else {
      ScanStep(places, s, list, i, true);
      StepOk(places, start, s, list[i], true, offers);
      var t := Step(places, s, list[i], true);
      SearchFits(places, start, t, offers);
      if t.count == |places| {
        AllFilled(places, start, t, offers, id);
      } else {
        if list[i].id == id {
          HashOf(places, start, s, offers, id, hash);
          OfferHash(offers, list[i], id, hash);
          ExtraFills(places, s, list[i]);
        } else {
          OtherOffer(places, s, list[i], true, id);
        }
        ScanExtra(places, start, t, list, i + 1, offers, id, hash);
      }
    }
  }

  /** All offers for a short id are the same transaction. */
  ghost predicate OneHash(offers: set<Offer>, id: nat, hash: nat) {
    forall o | o in offers && o.id == id :: o.tx.hash == hash
  }

  lemma OfferHash(offers: set<Offer>, o: Offer, id: nat, hash: nat)
    requires OneHash(offers, id, hash) && o in offers && o.id == id
    ensures o.tx.hash == hash
  {
  }

  lemma ScanEnd(places: map<nat, nat>, s: Search, list: seq<Offer>, extra: bool)
    requires Fits(places, s)
    ensures Scan(places, s, list, |list|, extra) == s
  {
  }

  /** A filled slot holds one of the offers for its short id. */
  lemma HashOf(places: map<nat, nat>, start: Slots, s: Search, offers: set<Offer>, id: nat, hash: nat)
    requires SearchOk(places, start, s, offers) && OneHash(offers, id, hash) && id in places
    ensures places[id] < |s.slots| && (s.slots[places[id]].Some? ==> s.slots[places[id]].value.hash == hash)
  {
  }

  lemma SearchFits(places: map<nat, nat>, start: Slots, s: Search, offers: set<Offer>)
    requires SearchOk(places, start, s, offers)
    ensures Fits(places, s)
  {
  }

  // ------------------------------------------------------------ receiving a block

  datatype Outcome = Invalid | Failed | Ready(search: Search)

  /** A test of the hash map's buckets, which the model leaves open. */
  type Uneven = (map<nat, nat>, nat) -> bool

  function AllPlaced(m: Message): Slots { Placed(m, |m.prefilled|) }

  function Places(m: Message): map<nat, nat> { SlotMap(AllPlaced(m), m.shortIds, |m.shortIds|) }

  predicate TooUneven(m: Message, uneven: Uneven) {
    exists i :: 0 <= i < |m.shortIds| && uneven(SlotMap(AllPlaced(m), m.shortIds, i + 1), m.shortIds[i])
  }

  predicate Malformed(m: Message, maxCount: nat) {
    m.headerNull || TxCount(m) == 0 || TxCount(m) > maxCount
  }

  function Start(m: Message): Search {
    Search(AllPlaced(m), seq(TxCount(m), _ => false), 0, 0)
  }

  /** What the receiver makes of a message, its memory pool and its extra transactions. */
  ghost function Init(m: Message, maxCount: nat, uneven: Uneven, pool: seq<Offer>, extra: seq<Offer>): Outcome {
    if Malformed(m, maxCount) || !Placeable(m, |m.prefilled|) then Invalid
    else if TooUneven(m, uneven) || |Places(m)| != |m.shortIds| then Failed
    else
      PlacesInRange(m);
      var s := Scan(Places(m), Start(m), pool, 0, false);
      Ready(Scan(Places(m), s, extra, 0, true))
  }

  /** Every slot number the map holds is in range. */
  lemma PlacesInRange(m: Message)
    requires Placeable(m, |m.prefilled|)
    ensures Fits(Places(m), Start(m))
  {
    hide EmptyFrom, NthEmpty, Placed;
    EmptyAfterPlacing(m, |m.prefilled|);
    MapInRange(AllPlaced(m), m.shortIds, |m.shortIds|);
  }

  lemma {:induction false} MapInRange(slots: Slots, ids: seq<nat>, n: nat)
    requires n <= |ids| && n <= EmptyFrom(slots, 0)
    ensures forall id | id in SlotMap(slots, ids, n) :: SlotMap(slots, ids, n)[id] < |slots|
  {
    hide NthEmpty, EmptyFrom;
    if n > 0 {
      MapInRange(slots, ids, n - 1);
      NthEmptyCount(slots, n - 1);
    }
  }

  /** Prefilled transactions and short ids share the positions out: each position belongs to exactly one of them. */
  lemma Partition(m: Message, p: nat)
    requires Placeable(m, |m.prefilled|) && p < TxCount(m)
    ensures (exists i :: 0 <= i < |m.prefilled| && Position(m, i) == p)
            != (exists k :: 0 <= k < |m.shortIds| && NthEmpty(AllPlaced(m), k) == p)
    ensures forall k, l | 0 <= k < l < |m.shortIds| :: NthEmpty(AllPlaced(m), k) != NthEmpty(AllPlaced(m), l)
  {
    hide EmptyFrom, NthEmpty, Placed, Position;
    var slots := AllPlaced(m);
    PlacedAt(m, |m.prefilled|, p);
    EmptyAfterPlacing(m, |m.prefilled|);
    if slots[p].None? {
      var k := EmptyIsNth(slots, p);
      assert NthEmpty(slots, k) == p;
    } else {
      forall k | 0 <= k < |m.shortIds|
        ensures NthEmpty(slots, k) != p
      {
        NthEmptyCount(slots, k);
      }
    }
    forall k, l | 0 <= k < l < |m.shortIds|
      ensures NthEmpty(slots, k) != NthEmpty(slots, l)
    {
      NthEmptyDistinct(slots, k, l);
    }
  }

  lemma PlacesInjective(m: Message)
    requires Placeable(m, |m.prefilled|) && |Places(m)| == |m.shortIds|
    ensures Injective(Places(m))
  {
    hide EmptyFrom, NthEmpty, Placed, Distinct, SlotMap;
    var slots, ids := AllPlaced(m), m.shortIds;
    EmptyAfterPlacing(m, |m.prefilled|);
    SlotMapExact(slots, ids, |ids|);
    SlotMapKeys(slots, ids, |ids|);
    assert ids[..|ids|] == ids;
    forall a, b | a in Places(m) && b in Places(m) && a != b
      ensures Places(m)[a] != Places(m)[b]
    {
      var i :| 0 <= i < |ids| && ids[i] == a;
      var j :| 0 <= j < |ids| && ids[j] == b;
      SlotMapPlaces(slots, ids, |ids|, i);
      SlotMapPlaces(slots, ids, |ids|, j);
      if i < j {
        NthEmptyDistinct(slots, i, j);
      } else {
        NthEmptyDistinct(slots, j, i);
      }
    }
  }

  ghost function AllOffers(pool: seq<Offer>, extra: seq<Offer>): set<Offer> { set o | o in pool + extra }

  /** Only slots of short ids are filled from what is at hand, each with an offer of its id, and the count is exact. */
  lemma InitOk(m: Message, maxCount: nat, uneven: Uneven, pool: seq<Offer>, extra: seq<Offer>)
    requires Init(m, maxCount, uneven, pool, extra).Ready?
    ensures SearchOk(Places(m), AllPlaced(m), Init(m, maxCount, uneven, pool, extra).search, AllOffers(pool, extra))
  {
    hide SearchOk, Scan, SlotMap, Placed, Injective;
    PlacesInRange(m);
    PlacesInjective(m);
    StartOk(m, AllOffers(pool, extra));
    OfferedAll(pool, extra);
    ScanOk(Places(m), AllPlaced(m), Start(m), pool, 0, false, AllOffers(pool, extra));
    ScanOk(Places(m), AllPlaced(m), Scan(Places(m), Start(m), pool, 0, false), extra, 0, true, AllOffers(pool, extra));
  }

  lemma OfferedAll(pool: seq<Offer>, extra: seq<Offer>)
    ensures (forall o | o in pool :: o in AllOffers(pool, extra))
            && (forall o | o in extra :: o in AllOffers(pool, extra))
  {
  }

  /**
   What is at hand is found: a short id that at most one transaction of the pool matches, and that all the matching
   transactions of the pool and of the extra ones agree on, has that transaction in its slot, if there is any.
   */
  lemma InitFills(m: Message, maxCount: nat, uneven: Uneven, pool: seq<Offer>, extra: seq<Offer>, id: nat, hash: nat)
    requires Init(m, maxCount, uneven, pool, extra).Ready? && id in m.shortIds
    requires OneHash(AllOffers(pool, extra), id, hash) && exists o :: o in AllOffers(pool, extra) && o.id == id
    requires forall i, j | 0 <= i < j < |pool| :: !(pool[i].id == id && pool[j].id == id)
    ensures var s := Init(m, maxCount, uneven, pool, extra).search.slots;
            && id in Places(m) && Places(m)[id] < |s|
            && s[Places(m)[id]].Some? && s[Places(m)[id]].value.hash == hash
  {
    hide SearchOk, Scan, SlotMap, Placed, Injective, OneHash, AllOffers, Placeable;
    var offers, places, start := AllOffers(pool, extra), Places(m), Start(m);
    PlacesInRange(m);
    PlacesInjective(m);
    PlacesHave(m, id);
    StartOk(m, offers);
    OfferedAll(pool, extra);
    ScanOk(places, AllPlaced(m), start, pool, 0, false, offers);
    var s := Scan(places, start, pool, 0, false);
    if k :| 0 <= k < |pool| && pool[k].id == id {
      ScanFinds(places, AllPlaced(m), start, pool, 0, false, offers, k);
    } else {
      ScanIgnores(places, start, pool, 0, false, id);
      OfferedExtra(pool, extra, id);
    }
    ScanExtra(places, AllPlaced(m), s, extra, 0, offers, id, hash);
    InitOk(m, maxCount, uneven, pool, extra);
    HashOf(places, AllPlaced(m), Init(m, maxCount, uneven, pool, extra).search, offers, id, hash);
  }

  lemma PlacesHave(m: Message, id: nat)
    requires id in m.shortIds
    ensures id in Places(m)
  {
    SlotMapKeys(AllPlaced(m), m.shortIds, |m.shortIds|);
    assert m.shortIds[..|m.shortIds|] == m.shortIds;
  }

  lemma OfferedExtra(pool: seq<Offer>, extra: seq<Offer>, id: nat)
    requires exists o :: o in AllOffers(pool, extra) && o.id == id
    requires !exists k :: 0 <= k < |pool| && pool[k].id == id
    ensures exists j :: 0 <= j < |extra| && extra[j].id == id
  {
    var o :| o in AllOffers(pool, extra) && o.id == id;
    assert o in pool + extra;
  }

  lemma StartOk(m: Message, offers: set<Offer>)
    requires Placeable(m, |m.prefilled|) && |Places(m)| == |m.shortIds|
    ensures SearchOk(Places(m), AllPlaced(m), Start(m), offers)
  {
    hide SlotMap, Placed, EmptyFrom, NthEmpty, Distinct;
    PlacesInRange(m);
    var slots, ids := AllPlaced(m), m.shortIds;
    EmptyAfterPlacing(m, |m.prefilled|);
    SlotMapExact(slots, ids, |ids|);
    SlotMapKeys(slots, ids, |ids|);
    assert ids[..|ids|] == ids;
    forall id | id in Places(m)
      ensures slots[Places(m)[id]].None?
    {
      var i :| 0 <= i < |ids| && ids[i] == id;
      SlotMapPlaces(slots, ids, |ids|, i);
      NthEmptyCount(slots, i);
    }
    assert Filled(Places(m), Start(m)) == {};
  }

  // ---------------------------------------------------------- completing a block

  /** Completes the slots from i on with the missing transactions from an offset on, or fails. */
  function Complete(slots: Slots, missing: seq<Tx>, i: nat, offset: nat): Option<seq<Tx>>
    requires i <= |slots| && offset <= |missing|
    decreases |slots| - i
  {
    if i == |slots| then if offset == |missing| then Some([]) else None
    else if slots[i].Some? then
      var rest := Complete(slots, missing, i + 1, offset);
      if rest.None? then None else Some([slots[i].value] + rest.value)
    else if offset == |missing| then None
    else
      var rest := Complete(slots, missing, i + 1, offset + 1);
      if rest.None? then None else Some([missing[offset]] + rest.value)
  }

  /** A block is completed exactly when as many transactions come as slots are empty; filled slots stay. */
  lemma {:induction false} CompleteExact(slots: Slots, missing: seq<Tx>, i: nat, offset: nat)
    requires i <= |slots| && offset <= |missing|
    ensures var r := Complete(slots, missing, i, offset);
            && (r.Some? <==> |missing| - offset == EmptyFrom(slots, i))
            && (r.Some? ==>
                  && |r.value| == |slots| - i
                  && forall p | i <= p < |slots| && slots[p].Some? :: r.value[p - i] == slots[p].value)
    decreases |slots| - i
  {
    if i < |slots| {
      if slots[i].Some? {
        CompleteExact(slots, missing, i + 1, offset);
      } else if offset < |missing| {
        CompleteExact(slots, missing, i + 1, offset + 1);
      }
    }
  }

  /** The transactions of a block that the slots from i on lack, in order. */
  function Wanted(slots: Slots, vtx: seq<Tx>, i: nat): seq<Tx>
    requires i <= |slots| == |vtx|
    decreases |slots| - i
  {
    if i == |slots| then [] else (if slots[i].None? then [vtx[i]] else []) + Wanted(slots, vtx, i + 1)
  }

  lemma {:induction false} CompleteRebuilds(slots: Slots, vtx: seq<Tx>, before: seq<Tx>, i: nat)
    requires i <= |slots| == |vtx| && forall p | i <= p < |slots| && slots[p].Some? :: slots[p].value == vtx[p]
    ensures Complete(slots, before + Wanted(slots, vtx, i), i, |before|) == Some(vtx[i..])
    decreases |slots| - i
  {
    hide Complete, Wanted;
    var missing := before + Wanted(slots, vtx, i);
    CompleteUnfold(slots, missing, i, |before|);
    WantedUnfold(slots, vtx, i);
    if i < |slots| {
      assert vtx[i..] == [vtx[i]] + vtx[i + 1..];
      if slots[i].Some? {
        CompleteRebuilds(slots, vtx, before, i + 1);
      } else {
        var more := before + [vtx[i]];
        assert missing == more + Wanted(slots, vtx, i + 1);
        CompleteRebuilds(slots, vtx, more, i + 1);
      }
    }
  }

  lemma CompleteUnfold(slots: Slots, missing: seq<Tx>, i: nat, offset: nat)
    requires i <= |slots| && offset <= |missing|
    ensures i == |slots| ==> Complete(slots, missing, i, offset) == if offset == |missing| then Some([]) else None
    ensures i < |slots| && slots[i].Some? ==>
              var rest := Complete(slots, missing, i + 1, offset);
              Complete(slots, missing, i, offset) == if rest.None? then None else Some([slots[i].value] + rest.value)
    ensures i < |slots| && slots[i].None? && offset < |missing| ==>
              var rest := Complete(slots, missing, i + 1, offset + 1);
              Complete(slots, missing, i, offset) == if rest.None? then None else Some([missing[offset]] + rest.value)
  {
  }

  lemma WantedUnfold(slots: Slots, vtx: seq<Tx>, i: nat)
    requires i <= |slots| == |vtx|
    ensures i == |slots| ==> Wanted(slots, vtx, i) == []
    ensures i < |slots| && slots[i].Some? ==> Wanted(slots, vtx, i) == Wanted(slots, vtx, i + 1)
    ensures i < |slots| && slots[i].None? ==> Wanted(slots, vtx, i) == [vtx[i]] + Wanted(slots, vtx, i + 1)
  {
  }

  // ------------------------------------------------------ a message from a block

  function PrefilledCount(stake: bool): nat { if stake then 2 else 1 }

  /** The short ids of the transactions of a block from a position on. */
  function ShortIds(vtx: seq<Tx>, shortId: nat -> nat, from: nat): (r: seq<nat>)
    requires from <= |vtx|
    ensures |r| == |vtx| - from && forall i | 0 <= i < |r| :: r[i] == shortId(vtx[from + i].hash)
    decreases |vtx| - from
  {
    if from == |vtx| then [] else [shortId(vtx[from].hash)] + ShortIds(vtx, shortId, from + 1)
  }

  /** The message of a block: the coinbase in full, the coinstake too if there is one, and short ids for the rest. */
  function Make(vtx: seq<Tx>, stake: bool, shortId: nat -> nat): Message
    requires |vtx| >= PrefilledCount(stake)
  {
    var k := PrefilledCount(stake);
    Message(false, ShortIds(vtx, shortId, k),
            if stake then [Prefilled(0, vtx[0]), Prefilled(0, vtx[1])] else [Prefilled(0, vtx[0])])
  }

  lemma MadeSlots(vtx: seq<Tx>, stake: bool, shortId: nat -> nat)
    requires |vtx| >= PrefilledCount(stake)
    ensures var slots := AllPlaced(Make(vtx, stake, shortId));
            && |slots| == |vtx|
            && forall p | 0 <= p < |vtx| :: slots[p] == if p < PrefilledCount(stake) then Some(vtx[p]) else None
  {
    var m := Make(vtx, stake, shortId);
    assert Position(m, 0) == 0;
    if stake {
      assert Position(m, 1) == 1;
      assert Placed(m, 2) == Placed(m, 1)[1 := Some(vtx[1])];
    }
    assert Placed(m, 1) == Placed(m, 0)[0 := Some(vtx[0])];
  }

  lemma {:induction false} NthInTail(slots: Slots, k: nat, i: nat)
    requires k + i < |slots| && forall p | 0 <= p < |slots| :: slots[p].None? <==> p >= k
    ensures NthEmpty(slots, i) == k + i
  {
    assert slots[k + i].None?;
    if i > 0 {
      NthInTail(slots, k, i - 1);
    }
  }

  /** Every offer that has the short id of a transaction of the block is that transaction. */
  ghost predicate Genuine(vtx: seq<Tx>, stake: bool, shortId: nat -> nat, offers: set<Offer>) {
    forall o, q | o in offers && PrefilledCount(stake) <= q < |vtx| && o.id == shortId(vtx[q].hash) :: o.tx == vtx[q]
  }

  /** The slots of a block's own message hold its transactions or nothing. */
  lemma SlotsOfBlock(vtx: seq<Tx>, stake: bool, shortId: nat -> nat, maxCount: nat, uneven: Uneven, pool: seq<Offer>,
                     extra: seq<Offer>, p: nat)
    requires |vtx| >= PrefilledCount(stake) && Genuine(vtx, stake, shortId, AllOffers(pool, extra)) && p < |vtx|
    requires Init(Make(vtx, stake, shortId), maxCount, uneven, pool, extra).Ready?
    ensures var s := Init(Make(vtx, stake, shortId), maxCount, uneven, pool, extra).search.slots;
            |s| == |vtx| && (s[p] == None || s[p] == Some(vtx[p])) && (p < PrefilledCount(stake) ==> s[p].Some?)
  {
    hide Scan, SlotMap, Placed, Make, Genuine, SearchOk, Placeable;
    var m := Make(vtx, stake, shortId);
    InitOk(m, maxCount, uneven, pool, extra);
    MadeSlots(vtx, stake, shortId);
    MadeIds(vtx, stake, shortId);
    var s := Init(m, maxCount, uneven, pool, extra).search;
    if p >= PrefilledCount(stake) {
      TailSlot(m, vtx, stake, shortId, s, AllOffers(pool, extra), p);
    } else {
      NotAPlace(m, PrefilledCount(stake), p, AllPlaced(m));
      HeadSlot(m, s, AllOffers(pool, extra), p);
    }
  }

  /**
   Exactly when a receiver can use the message of a block: it has room, the prefilled transactions are not null, no
   bucket of the map is too full, and no two of the other transactions have the same short id.
   */
  lemma MadeReadyExact(vtx: seq<Tx>, stake: bool, shortId: nat -> nat, maxCount: nat, uneven: Uneven, pool: seq<Offer>,
                       extra: seq<Offer>)
    requires |vtx| >= PrefilledCount(stake)
    ensures var m, k := Make(vtx, stake, shortId), PrefilledCount(stake);
            Init(m, maxCount, uneven, pool, extra).Ready? <==>
              && |vtx| <= maxCount && (forall p | 0 <= p < k :: !vtx[p].isNull)
              && !TooUneven(m, uneven)
              && (forall i, j | k <= i < j < |vtx| :: shortId(vtx[i].hash) != shortId(vtx[j].hash))
  {
    hide Scan, SlotMap, Placed, TooUneven;
    var m, k := Make(vtx, stake, shortId), PrefilledCount(stake);
    MadePlaceable(vtx, stake, shortId);
    SlotMapExact(AllPlaced(m), m.shortIds, |m.shortIds|);
    MadeDistinct(vtx, shortId, k);
    hide Placeable, Distinct;
  }

  lemma MadePlaceable(vtx: seq<Tx>, stake: bool, shortId: nat -> nat)
    requires |vtx| >= PrefilledCount(stake)
    ensures var m := Make(vtx, stake, shortId);
            Placeable(m, |m.prefilled|) <==> forall p | 0 <= p < PrefilledCount(stake) :: !vtx[p].isNull
  {
    var m := Make(vtx, stake, shortId);
    assert Position(m, 0) == 0;
    assert stake ==> Position(m, 1) == 1;
    forall i | 0 <= i < |m.prefilled|
      ensures m.prefilled[i].tx == vtx[i]
    {
    }
  }

  lemma MadeDistinct(vtx: seq<Tx>, shortId: nat -> nat, k: nat)
    requires k <= |vtx|
    ensures var ids := ShortIds(vtx, shortId, k);
            Distinct(ids, |ids|) <==> forall i, j | k <= i < j < |vtx| :: shortId(vtx[i].hash) != shortId(vtx[j].hash)
  {
    var ids := ShortIds(vtx, shortId, k);
    if Distinct(ids, |ids|) {
      forall i, j | k <= i < j < |vtx|
        ensures shortId(vtx[i].hash) != shortId(vtx[j].hash)
      {
        assert ids[i - k] != ids[j - k];
      }
    }
  }

  lemma MadeIds(vtx: seq<Tx>, stake: bool, shortId: nat -> nat)
    requires |vtx| >= PrefilledCount(stake)
    ensures Make(vtx, stake, shortId).shortIds == ShortIds(vtx, shortId, PrefilledCount(stake))
  {
  }

  lemma HeadSlot(m: Message, s: Search, offers: set<Offer>, p: nat)
    requires SearchOk(Places(m), AllPlaced(m), s, offers) && p < TxCount(m) && p !in Places(m).Values
    ensures |s.slots| == TxCount(m) && s.slots[p] == AllPlaced(m)[p]
  {
  }

  lemma TailSlot(m: Message, vtx: seq<Tx>, stake: bool, shortId: nat -> nat, s: Search, offers: set<Offer>, p: nat)
    requires SearchOk(Places(m), AllPlaced(m), s, offers) && Genuine(vtx, stake, shortId, offers)
    requires PrefilledCount(stake) <= p < |vtx| == |AllPlaced(m)| && |Places(m)| == |m.shortIds|
    requires m.shortIds == ShortIds(vtx, shortId, PrefilledCount(stake))
    requires forall q | 0 <= q < |vtx| :: AllPlaced(m)[q].None? <==> q >= PrefilledCount(stake)
    ensures |s.slots| == |vtx| && (s.slots[p] == None || s.slots[p] == Some(vtx[p]))
  {
    hide SlotMap, Placed, Distinct, NthEmpty, SearchOk, Genuine;
    var k, ids, slots := PrefilledCount(stake), m.shortIds, AllPlaced(m);
    SlotMapExact(slots, ids, |ids|);
    SlotMapPlaces(slots, ids, |ids|, p - k);
    NthInTail(slots, k, p - k);
    FilledByOffer(Places(m), slots, s, offers, ids[p - k]);
    if s.slots[p].Some? {
      GenuineOffer(vtx, stake, shortId, offers, Offer(ids[p - k], s.slots[p].value), p);
    }
  }

  lemma FilledByOffer(places: map<nat, nat>, start: Slots, s: Search, offers: set<Offer>, id: nat)
    requires SearchOk(places, start, s, offers) && id in places
    ensures |s.slots| == |start| && places[id] < |start|
    ensures s.slots[places[id]].Some? ==> Offer(id, s.slots[places[id]].value) in offers
  {
  }

  lemma GenuineOffer(vtx: seq<Tx>, stake: bool, shortId: nat -> nat, offers: set<Offer>, o: Offer, q: nat)
    requires Genuine(vtx, stake, shortId, offers) && o in offers && PrefilledCount(stake) <= q < |vtx|
             && o.id == shortId(vtx[q].hash)
    ensures o.tx == vtx[q]
  {
  }

  lemma NotAPlace(m: Message, k: nat, p: nat, slots: Slots)
    requires slots == AllPlaced(m) && p < k && |m.shortIds| + k == |slots| && |Places(m)| == |m.shortIds|
    requires forall q | 0 <= q < |slots| :: slots[q].None? <==> q >= k
    ensures p !in Places(m).Values
  {
    hide SlotMap, Placed, Distinct, NthEmpty, EmptyFrom;
    var ids := m.shortIds;
    SlotMapExact(slots, ids, |ids|);
    SlotMapKeys(slots, ids, |ids|);
    assert ids[..|ids|] == ids;
    forall id | id in Places(m)
      ensures Places(m)[id] != p
    {
      var i :| 0 <= i < |ids| && ids[i] == id;
      SlotMapPlaces(slots, ids, |ids|, i);
      NthInTail(slots, k, i);
    }
  }

  /** With genuine matches, a block's message and the transactions still missing, in order, give its list back. */
  lemma RebuildsBlock(vtx: seq<Tx>, stake: bool, shortId: nat -> nat, maxCount: nat, uneven: Uneven, pool: seq<Offer>,
                      extra: seq<Offer>)
    requires |vtx| >= PrefilledCount(stake) && Genuine(vtx, stake, shortId, AllOffers(pool, extra))
    requires Init(Make(vtx, stake, shortId), maxCount, uneven, pool, extra).Ready?
    ensures var s := Init(Make(vtx, stake, shortId), maxCount, uneven, pool, extra).search.slots;
            |s| == |vtx| && Complete(s, Wanted(s, vtx, 0), 0, 0) == Some(vtx)
  {
    hide Init, Complete, Wanted, Genuine, Make;
    var s := Init(Make(vtx, stake, shortId), maxCount, uneven, pool, extra).search.slots;
    forall p | 0 <= p < |vtx|
      ensures |s| == |vtx| && (s[p] == None || s[p] == Some(vtx[p]))
    {
      SlotsOfBlock(vtx, stake, shortId, maxCount, uneven, pool, extra, p);
    }
    SlotsOfBlock(vtx, stake, shortId, maxCount, uneven, pool, extra, 0);
    CompleteRebuilds(s, vtx, [], 0);
    assert [] + Wanted(s, vtx, 0) == Wanted(s, vtx, 0) && vtx[0..] == vtx;
  }

  // ----------------------------------------------------------- differential lists

  const UINT64_MAX: nat := 0xFFFF_FFFF_FFFF_FFFF

  /** The differences of a list of numbers, each from the one before plus one, or None when one does not increase. */
  function Differences(shift: nat, values: seq<nat>): Option<seq<nat>>
    decreases |values|
  {
    if values == [] then Some([])
    else if values[0] < shift || values[0] >= UINT64_MAX then None
    else
      var rest := Differences(values[0] + 1, values[1..]);
      if rest.None? then None else Some([values[0] - shift] + rest.value)
  }

  /** The sum as the 64-bit reader computes it. */
  function Wrapped(shift: nat, n: nat): nat { (shift + n) % (UINT64_MAX + 1) }

  predicate Unreadable(shift: nat, n: nat, maxValue: nat) {
    var v := Wrapped(shift, n);
    v < n || v >= UINT64_MAX || v > maxValue
  }

  /** The numbers back from their differences, for an element type with a largest value. */
  function FromDifferences(shift: nat, diffs: seq<nat>, maxValue: nat): Option<seq<nat>>
    decreases |diffs|
  {
    if diffs == [] then Some([])
    else if Unreadable(shift, diffs[0], maxValue) then None
    else
      var v := Wrapped(shift, diffs[0]);
      var rest := FromDifferences(v + 1, diffs[1..], maxValue);
      if rest.None? then None else Some([v] + rest.value)
  }

  ghost predicate IncreasingFrom(shift: nat, values: seq<nat>)
    decreases |values|
  {
    values == [] || (shift <= values[0] && IncreasingFrom(values[0] + 1, values[1..]))
  }

  /** Only increasing lists have differences. */
  lemma {:induction false} DifferencesExist(shift: nat, values: seq<nat>)
    requires forall i | 0 <= i < |values| :: values[i] < UINT64_MAX
    ensures Differences(shift, values).Some? <==> IncreasingFrom(shift, values)
    decreases |values|
  {
    if values != [] {
      DifferencesExist(values[0] + 1, values[1..]);
    }
  }

  lemma ReadStep(shift: nat, v: nat, rest: seq<nat>, maxValue: nat)
    requires shift <= v <= maxValue < UINT64_MAX
    ensures var r := FromDifferences(v + 1, rest, maxValue);
            FromDifferences(shift, [v - shift] + rest, maxValue) == if r.None? then None else Some([v] + r.value)
  {
    var diffs := [v - shift] + rest;
    assert diffs[1..] == rest && Wrapped(shift, v - shift) == v;
  }

  /** Reading the differences of a list gives the list back. */
  lemma {:induction false} DifferencesInvert(shift: nat, values: seq<nat>, maxValue: nat)
    requires maxValue < UINT64_MAX && forall i | 0 <= i < |values| :: values[i] <= maxValue
    requires Differences(shift, values).Some?
    ensures FromDifferences(shift, Differences(shift, values).value, maxValue) == Some(values)
    decreases |values|
  {
    hide FromDifferences;
    if values == [] {
      ReadNothing(shift, maxValue);
    } else {
      DifferencesInvert(values[0] + 1, values[1..], maxValue);
      ReadStep(shift, values[0], Differences(values[0] + 1, values[1..]).value, maxValue);
      assert values == [values[0]] + values[1..];
    }
  }

  lemma ReadNothing(shift: nat, maxValue: nat)
    ensures FromDifferences(shift, [], maxValue) == Some([])
  {
  }

  /** Whatever can be read is an increasing list, and these are its differences. */
  lemma {:induction false} ReadIsIncreasing(shift: nat, diffs: seq<nat>, maxValue: nat)
    requires shift <= UINT64_MAX && FromDifferences(shift, diffs, maxValue).Some?
    requires forall n | n in diffs :: n <= UINT64_MAX
    ensures var values := FromDifferences(shift, diffs, maxValue).value;
            IncreasingFrom(shift, values) && Differences(shift, values) == Some(diffs)
    decreases |diffs|
  {
    if diffs != [] {
      assert diffs[0] in diffs;
      var v := Wrapped(shift, diffs[0]);
      assert v == shift + diffs[0];
      forall n | n in diffs[1..]
        ensures n in diffs
      {
      }
      ReadIsIncreasing(v + 1, diffs[1..], maxValue);
      assert diffs == [diffs[0]] + diffs[1..];
    }
  }
}
