/**
 Saving and loading as the program does it: loops that write the entries and
 the bucket tables to a stream, and loops that fill a cleared manager from one.
 */
module AddrManSerialize {
  import opened Options
  import opened AddrManModel
  import opened AddrManInvariant
  import opened AddrManStream
  import opened AddrManRoundTrip
  import opened AddrMan

  // ------------------------------------------------------------------- saving

  lemma PrefixStep(order: seq<int>, k: nat)
    requires k < |order|
    ensures order[..k + 1][..k] == order[..k] && order[..k + 1][k] == order[k] && |order[..k + 1]| == k + 1
  {
  }

  lemma PrefixKnown(m: Manager, order: seq<int>, k: nat)
    requires AllKnown(m, order) && k <= |order|
    ensures AllKnown(m, order[..k])
  {
  }

  lemma EntryTokensAppend(m: Manager, ids: seq<int>, id: int)
    requires AllKnown(m, ids) && id in m.info
    ensures AllKnown(m, ids + [id])
            && EntryTokens(m, ids + [id]) == EntryTokens(m, ids) + [EntryToken(Persist(m.info[id]))]
  {
  }

  lemma {:induction false} IndexOfAppend(ids: seq<int>, x: int, id: int)
    ensures id in ids ==> IndexOf(ids + [x], id) == IndexOf(ids, id)
    ensures id !in ids ==> IndexOf(ids + [id], id) == |ids|
  {
    if ids != [] {
      IndexOfAppend(ids[1..], x, id);
      assert (ids + [x])[1..] == ids[1..] + [x] && (ids + [id])[1..] == ids[1..] + [id];
      assert id in ids <==> id == ids[0] || id in ids[1..];
    }
  }

  /** The numbers given to the new entries seen so far. */
  ghost predicate Numbered(unkIds: map<int, int>, ids: seq<int>) {
    forall id | id in ids :: id in unkIds && unkIds[id] == IndexOf(ids, id)
  }

  lemma NumberedStep(unkIds: map<int, int>, ids: seq<int>, id: int, isNew: bool)
    requires Numbered(unkIds, ids) && id !in ids
    ensures Numbered(unkIds[id := |ids|], if isNew then ids + [id] else ids)
  {
    forall x | x in ids + [id]
      ensures x in unkIds[id := |ids|] && (x != id ==> IndexOf(ids + [id], x) == IndexOf(ids, x))
              && IndexOf(ids + [id], id) == |ids|
    {
      IndexOfAppend(ids, id, x);
      IndexOfAppend(ids, id, id);
    }
  }

  lemma NewStep(m: Manager, order: seq<int>, k: nat)
    requires AllKnown(m, order) && k < |order| && Distinct(order)
    ensures AllKnown(m, order[..k]) && AllKnown(m, order[..k + 1])
    ensures order[k] !in NewOrder(m, order[..k])
    ensures var ids := NewOrder(m, order[..k]);
            NewOrder(m, order[..k + 1]) == if m.info[order[k]].refCount != 0 then ids + [order[k]] else ids
  {
    PrefixStep(order, k);
    var ids := NewOrder(m, order[..k]);
    forall j | 0 <= j < |ids|
      ensures ids[j] != order[k]
    {
      assert ids[j] in order[..k];
    }
  }

  lemma {:induction false} NewCount(m: Manager, order: seq<int>, k: nat)
    requires AllKnown(m, order) && k <= |order|
    ensures AllKnown(m, order[..k]) && |NewOrder(m, order[..k])| <= |NewOrder(m, order)|
    ensures k < |order| && m.info[order[k]].refCount != 0 ==> |NewOrder(m, order[..k])| < |NewOrder(m, order)|
    decreases |order| - k
  {
    PrefixKnown(m, order, k);
    if k < |order| {
      PrefixStep(order, k);
      NewCount(m, order, k + 1);
    } else {
      assert order[..k] == order;
    }
  }

  lemma TriedStep(m: Manager, order: seq<int>, k: nat)
    requires AllKnown(m, order) && k < |order|
    ensures AllKnown(m, order[..k]) && AllKnown(m, order[..k + 1])
    ensures var ids := TriedOrder(m, order[..k]);
            TriedOrder(m, order[..k + 1]) == if m.info[order[k]].inTried then ids + [order[k]] else ids
  {
    PrefixStep(order, k);
  }

  lemma {:induction false} TriedCount(m: Manager, order: seq<int>, k: nat)
    requires AllKnown(m, order) && k <= |order|
    ensures AllKnown(m, order[..k]) && |TriedOrder(m, order[..k])| <= |TriedOrder(m, order)|
    ensures k < |order| && m.info[order[k]].inTried ==> |TriedOrder(m, order[..k])| < |TriedOrder(m, order)|
    decreases |order| - k
  {
    PrefixKnown(m, order, k);
    if k < |order| {
      PrefixStep(order, k);
      TriedCount(m, order, k + 1);
    } else {
      assert order[..k] == order;
    }
  }

  lemma OrderCounts(m: Manager, order: seq<int>)
    requires Mid(m, {}, 0) && Enumerates(order, m.info)
    ensures AllKnown(m, order) && Distinct(order)
    ensures |NewOrder(m, order)| == m.nNew && |TriedOrder(m, order)| == m.nTried
  {
    NumberingOf(m, order);
    NumberingCounts(m, NewOrder(m, order), TriedOrder(m, order));
  }

  lemma OrderNone(m: Manager)
    ensures NewOrder(m, []) == [] && TriedOrder(m, []) == [] && EntryTokens(m, []) == []
  {
  }

  /** Writes the new entries and numbers them. */
  method WriteNew(a: CAddrMan, order: seq<int>) returns (s: seq<Token>, unkIds: map<int, int>)
    requires Mid(a.Abs(), {}, 0) && Enumerates(order, a.mapInfo)
    ensures AllKnown(a.Abs(), order)
    ensures s == EntryTokens(a.Abs(), NewOrder(a.Abs(), order)) && Numbered(unkIds, NewOrder(a.Abs(), order))
  {
    hide Mid, Enumerates, NewOrder, EntryTokens, Numbered, Distinct;
    ghost var m := a.Abs();
    OrderCounts(m, order);
    OrderNone(m);
    assert order[..0] == [];
    s, unkIds := [], map[];
    NumberedNone(unkIds);
    var nIds := 0;
    var k := 0;
    while k < |order|
      invariant 0 <= k <= |order| && AllKnown(m, order[..k])
      invariant s == EntryTokens(m, NewOrder(m, order[..k])) && nIds == |NewOrder(m, order[..k])|
      invariant Numbered(unkIds, NewOrder(m, order[..k]))
    {
      NewStep(m, order, k);
      NewCount(m, order, k);
      ghost var ids := NewOrder(m, order[..k]);
      NumberedStep(unkIds, ids, order[k], m.info[order[k]].refCount != 0);
      EntryTokensAppend(m, ids, order[k]);
      unkIds := unkIds[order[k] := nIds];
      var info := a.mapInfo[order[k]];
      if info.refCount != 0 {
        assert nIds != a.nNew;
        s := s + [EntryToken(Persist(info))];
        nIds := nIds + 1;
      }
      k := k + 1;
    }
    assert order[..|order|] == order;
  }

  lemma NumberedNone(unkIds: map<int, int>)
    ensures Numbered(unkIds, [])
  {
  }

  /** Writes the tried entries. */
  method WriteTried(a: CAddrMan, order: seq<int>) returns (s: seq<Token>)
    requires Mid(a.Abs(), {}, 0) && Enumerates(order, a.mapInfo)
    ensures AllKnown(a.Abs(), order) && s == EntryTokens(a.Abs(), TriedOrder(a.Abs(), order))
  {
    hide Mid, Enumerates, TriedOrder, EntryTokens, Distinct;
    ghost var m := a.Abs();
    OrderCounts(m, order);
    OrderNone(m);
    assert order[..0] == [];
    s := [];
    var nIds := 0;
    var k := 0;
    while k < |order|
      invariant 0 <= k <= |order| && AllKnown(m, order[..k])
      invariant s == EntryTokens(m, TriedOrder(m, order[..k])) && nIds == |TriedOrder(m, order[..k])|
    {
      TriedStep(m, order, k);
      TriedCount(m, order, k);
      EntryTokensAppend(m, TriedOrder(m, order[..k]), order[k]);
      var info := a.mapInfo[order[k]];
      if info.inTried {
        assert nIds != a.nTried;
        s := s + [EntryToken(Persist(info))];
        nIds := nIds + 1;
      }
      k := k + 1;
    }
    assert order[..|order|] == order;
  }

  lemma CellsStep(t: map<Slot, int>, ids: seq<int>, bucket: nat, n: nat)
    ensures var cells := CellsOf(t, bucket, n);
            CellsOf(t, bucket, n + 1) == if Slot(bucket, n) in t then cells + [Slot(bucket, n)] else cells
    ensures Slot(bucket, n) in t ==>
              IndexTokens(t, CellsOf(t, bucket, n + 1), ids)
              == IndexTokens(t, CellsOf(t, bucket, n), ids) + [IntToken(IndexOf(ids, t[Slot(bucket, n)]))]
    ensures CellsOf(t, bucket, 0) == [] && IndexTokens(t, [], ids) == []
  {
  }

  /** Writes one bucket: how many of its cells are occupied, and the number of each occupant. */
  method WriteBucket(a: CAddrMan, bucket: nat, unkIds: map<int, int>, ghost ids: seq<int>) returns (s: seq<Token>)
    requires a.Shape() && bucket < NEW_BUCKET_COUNT && Numbered(unkIds, ids)
    requires forall x | x in Table(a.vvNew) :: Table(a.vvNew)[x] in ids
    ensures var cells := CellsOf(Table(a.vvNew), bucket, BUCKET_SIZE);
            s == [IntToken(|cells|)] + IndexTokens(Table(a.vvNew), cells, ids)
  {
    hide Table, CellsOf, IndexTokens;
    ghost var t := Table(a.vvNew);
    var nSize := 0;
    var i: nat := 0;
    CellsStep(t, ids, bucket, 0);
    while i < BUCKET_SIZE
      invariant i <= BUCKET_SIZE && nSize == |CellsOf(t, bucket, i)|
    {
      CellsStep(t, ids, bucket, i);
      CellOf(a.vvNew, bucket, i);
      if a.vvNew[bucket, i] != -1 {
        nSize := nSize + 1;
      }
      i := i + 1;
    }
    s := [IntToken(nSize)];
    i := 0;
    while i < BUCKET_SIZE
      invariant i <= BUCKET_SIZE && s == [IntToken(nSize)] + IndexTokens(t, CellsOf(t, bucket, i), ids)
    {
      CellsStep(t, ids, bucket, i);
      CellOf(a.vvNew, bucket, i);
      if a.vvNew[bucket, i] != -1 {
        assert a.vvNew[bucket, i] in ids by { assert t[Slot(bucket, i)] in ids; }
        s := s + [IntToken(unkIds[a.vvNew[bucket, i]])];
      }
      i := i + 1;
    }
  }

  lemma BucketsStep(t: map<Slot, int>, ids: seq<int>, bucket: nat)
    ensures bucket >= NEW_BUCKET_COUNT ==> BucketTokens(t, ids, bucket) == []
    ensures bucket < NEW_BUCKET_COUNT ==>
              var cells := CellsOf(t, bucket, BUCKET_SIZE);
              BucketTokens(t, ids, bucket)
              == [IntToken(|cells|)] + IndexTokens(t, cells, ids) + BucketTokens(t, ids, bucket + 1)
  {
  }

  method WriteBuckets(a: CAddrMan, unkIds: map<int, int>, ghost ids: seq<int>) returns (s: seq<Token>)
    requires a.Shape() && Numbered(unkIds, ids)
    requires forall x | x in Table(a.vvNew) :: Table(a.vvNew)[x] in ids
    ensures s == BucketTokens(Table(a.vvNew), ids, 0)
  {
    hide Table, CellsOf, IndexTokens, BucketTokens, Numbered;
    ghost var t := Table(a.vvNew);
    s := [];
    var bucket: nat := 0;
    while bucket < NEW_BUCKET_COUNT
      invariant bucket <= NEW_BUCKET_COUNT && s + BucketTokens(t, ids, bucket) == BucketTokens(t, ids, 0)
    {
      BucketsStep(t, ids, bucket);
      var one := WriteBucket(a, bucket, unkIds, ids);
      assert (s + one) + BucketTokens(t, ids, bucket + 1) == s + (one + BucketTokens(t, ids, bucket + 1));
      s := s + one;
      bucket := bucket + 1;
    }
    BucketsStep(t, ids, bucket);
    assert s + [] == s;
  }

  /** Saves a manager; `order` is the order in which the program goes through its entries. */
  method Serialize(a: CAddrMan, order: seq<int>, sum: nat) returns (s: seq<Token>)
    requires a.Shape() && Mid(a.Abs(), {}, 0) && Enumerates(order, a.mapInfo)
    ensures AllKnown(a.Abs(), order) && s == Save(a.Abs(), order, sum)
  {
    hide Mid, Enumerates, NewOrder, TriedOrder, EntryTokens, BucketTokens, Numbered, Table;
    ghost var m := a.Abs();
    var news, unkIds := WriteNew(a, order);
    var trieds := WriteTried(a, order);
    NumberingOf(m, order);
    OwnersAreNew(m, NewOrder(m, order), TriedOrder(m, order));
    var buckets := WriteBuckets(a, unkIds, NewOrder(m, order));
    s := [ByteToken(FORMAT_V3_BIP155), ByteToken(32), KeyToken(a.hashing),
          IntToken(a.nNew), IntToken(a.nTried), IntToken(NEW_BUCKET_COUNT + BIT30)];
    s := s + news + trieds + buckets + [SumToken(sum)];
  }

  // ------------------------------------------------------------------ clearing

  method ClearTable(t: array2<int>)
    modifies t
    ensures Table(t) == map[]
  {
    var b := 0;
    while b < t.Length0
      invariant 0 <= b <= t.Length0
      invariant forall i, j | 0 <= i < b && 0 <= j < t.Length1 :: t[i, j] == -1
    {
      var p := 0;
      while p < t.Length1
        invariant 0 <= p <= t.Length1
        invariant forall i, j | 0 <= i < b && 0 <= j < t.Length1 :: t[i, j] == -1
        invariant forall j | 0 <= j < p :: t[b, j] == -1
      {
        t[b, p] := -1;
        p := p + 1;
      }
      b := b + 1;
    }
  }

  /** Empties a manager and gives it a new key; the pending collisions stay. */
  method Clear(a: CAddrMan, key: Hashing)
    requires a.Shape()
    modifies a, a.vvNew, a.vvTried
    ensures a.Abs() == Empty(a.discriminatePorts, key).(collisions := old(a.collisions))
  {
    hide Table;
    a.vRandom, a.hashing := [], key;
    ClearTable(a.vvNew);
    ClearTable(a.vvTried);
    a.idCount, a.nTried, a.nNew, a.lastGood := 0, 0, 0, 1;
    a.mapInfo, a.mapAddr := map[], map[];
  }

  // ------------------------------------------------------------------- reading

  /** What a reader has so far, followed by what it still reads, is all it reads. */
  ghost function After<T>(done: seq<T>, rest: Option<(seq<T>, seq<Token>)>): Option<(seq<T>, seq<Token>)> {
    if rest.None? then None else Some((done + rest.value.0, rest.value.1))
  }

  lemma AfterNothing<T>(rest: Option<(seq<T>, seq<Token>)>)
    ensures After([], rest) == rest
  {
    if rest.Some? {
      assert [] + rest.value.0 == rest.value.0;
    }
  }

  lemma EntryStep(done: seq<Entry>, ts: seq<Token>, n: nat)
    requires n > 0
    ensures ts == [] || !ts[0].EntryToken? ==> After(done, TakeEntries(ts, n)) == None
    ensures ts != [] && ts[0].EntryToken? ==>
              After(done, TakeEntries(ts, n)) == After(done + [ts[0].entry], TakeEntries(ts[1..], n - 1))
  {
    if ts != [] && ts[0].EntryToken? {
      var rest := TakeEntries(ts[1..], n - 1);
      if rest.Some? {
        assert done + ([ts[0].entry] + rest.value.0) == done + [ts[0].entry] + rest.value.0;
      }
    }
  }

  lemma EntriesEnd(done: seq<Entry>, ts: seq<Token>)
    ensures After(done, TakeEntries(ts, 0)) == Some((done, ts)) && After(done, None) == None
  {
    assert done + [] == done;
  }

  /** Reads the header, rejecting what the program rejects. */
  method ReadHeader(ts: seq<Token>) returns (r: Option<Header>)
    ensures r == TakeHeader(ts)
  {
    if |ts| < 6 || !ts[0].ByteToken? || !ts[1].ByteToken? || !ts[2].KeyToken?
       || !ts[3].IntToken? || !ts[4].IntToken? || !ts[5].IntToken? {
      return None;
    }
    var format := ts[0].byte;
    if format > FORMAT_V3_BIP155 {
      return None;
    }
    if ts[1].byte != 32 {
      return None;
    }
    var nNew, nTried, nUBuckets := ts[3].value, ts[4].value, ts[5].value;
    if format >= FORMAT_V1_DETERMINISTIC {
      nUBuckets := FlipBit30(nUBuckets);
    }
    if nNew > NEW_BUCKET_COUNT * BUCKET_SIZE || nNew < 0 {
      return None;
    }
    if nTried > TRIED_BUCKET_COUNT * BUCKET_SIZE || nTried < 0 {
      return None;
    }
    r := Some(Header(format, ts[2].hashing, nNew, nTried, nUBuckets));
  }

  /** The manager after the new entries, while the counters already hold what the header says. */
  ghost function WithNew(m: Manager, es: seq<Entry>): Manager {
    LoadNew(m.discriminatePorts, m.hashing, m.collisions, es).(idCount := m.idCount, nNew := m.nNew, nTried := m.nTried)
  }

  lemma WithNewStep(m: Manager, done: seq<Entry>, e: Entry)
    ensures var w, n := WithNew(m, done), |done|;
            WithNew(m, done + [e]) == w.(info := w.info[n := Loaded(e, 0, false, |w.random|)],
                                         addr := w.addr[e.service := n], random := w.random + [n])
  {
    var es := done + [e];
    assert es[..|es| - 1] == done;
  }

  /** A cleared manager, whose counters may already hold what the header says. */
  ghost predicate NothingRead(m: Manager) {
    m == Empty(m.discriminatePorts, m.hashing).(idCount := m.idCount, nNew := m.nNew, nTried := m.nTried,
                                                collisions := m.collisions)
  }

  lemma WithNewNone(m: Manager)
    requires NothingRead(m)
    ensures WithNew(m, []) == m
  {
  }

  method EnterNew(a: CAddrMan, e: Entry, k: int)
    modifies a`mapInfo, a`mapAddr, a`vRandom
    ensures var w := old(a.Abs());
            a.Abs() == w.(info := w.info[k := Loaded(e, 0, false, |w.random|)],
                          addr := w.addr[e.service := k], random := w.random + [k])
  {
    hide Table;
    a.mapInfo := a.mapInfo[k := Loaded(e, 0, false, -1)];
    a.mapAddr := a.mapAddr[e.service := k];
    a.mapInfo := a.mapInfo[k := a.mapInfo[k].(randomPos := |a.vRandom|)];
    a.vRandom := a.vRandom + [k];
  }

  /** Reads the new entries into a cleared manager. */
  method ReadNew(a: CAddrMan, ts: seq<Token>, n: nat) returns (rest: Option<seq<Token>>, ghost es: seq<Entry>)
    requires NothingRead(a.Abs())
    modifies a`mapInfo, a`mapAddr, a`vRandom
    ensures rest.None? <==> TakeEntries(ts, n).None?
    ensures rest.Some? ==> TakeEntries(ts, n) == Some((es, rest.value)) && a.Abs() == WithNew(old(a.Abs()), es)
  {
    hide TakeEntries, Table, WithNew, After;
    ghost var m := a.Abs();
    WithNewNone(m);
    es := [];
    var left := ts;
    var k := 0;
    AfterNothing(TakeEntries(ts, n));
    while k < n
      invariant 0 <= k <= n && |es| == k && a.Abs() == WithNew(m, es)
      invariant After(es, TakeEntries(left, n - k)) == TakeEntries(ts, n)
    {
      EntryStep(es, left, n - k);
      if left == [] || !left[0].EntryToken? {
        return None, es;
      }
      var e := left[0].entry;
      WithNewStep(m, es, e);
      EnterNew(a, e, k);
      es := es + [e];
      left := left[1..];
      k := k + 1;
    }
    EntriesEnd(es, left);
    rest := Some(left);
  }

  lemma TriedEntryStep(w: Manager, done: seq<Entry>, e: Entry)
    requires RandomOk(w.info, w.random) && forall k | k in w.info :: 0 <= k < w.idCount
    ensures LoadTried(w, done + [e]) == LoadOneTried(LoadTried(w, done), e)
  {
    LoadTriedStep(w, done + [e]);
    assert (done + [e])[..|done|] == done;
  }

  /** Reads the tried entries; one whose slot is taken is lost. */
  method ReadTried(a: CAddrMan, ts: seq<Token>, n: nat, ghost w: Manager) returns (rest: Option<seq<Token>>,
                   ghost es: seq<Entry>)
    requires a.Shape() && RandomOk(w.info, w.random) && forall k | k in w.info :: 0 <= k < w.idCount
    requires a.Abs() == w.(nTried := n) && w.nTried == 0
    modifies a, a.vvTried
    ensures rest.None? <==> TakeEntries(ts, n).None?
    ensures rest.Some? ==> TakeEntries(ts, n) == Some((es, rest.value)) && a.Abs() == LoadTried(w, es)
  {
    hide TakeEntries, LoadTried, LoadOneTried, Table, RandomOk;
    LoadTriedNone(w);
    es := [];
    var left := ts;
    var lost := 0;
    var k := 0;
    AfterNothing(TakeEntries(ts, n));
    while k < n
      invariant 0 <= k <= n && a.Abs() == LoadTried(w, es).(nTried := n) && LoadTried(w, es).nTried == k - lost
      invariant After(es, TakeEntries(left, n - k)) == TakeEntries(ts, n)
    {
      EntryStep(es, left, n - k);
      if left == [] || !left[0].EntryToken? {
        return None, es;
      }
      var e := left[0].entry;
      TriedEntryStep(w, es, e);
      var taken := EnterTried(a, e, LoadTried(w, es), n);
      if taken {
        lost := lost + 1;
      }
      es := es + [e];
      left := left[1..];
      k := k + 1;
    }
    EntriesEnd(es, left);
    a.nTried := a.nTried - lost;
    rest := Some(left);
  }

  method EnterTried(a: CAddrMan, e: Entry, ghost w: Manager, ghost n: nat) returns (taken: bool)
    requires a.Shape() && a.Abs() == w.(nTried := n)
    modifies a`idCount, a`mapInfo, a`mapAddr, a`vRandom, a.vvTried
    ensures a.Abs() == LoadOneTried(w, e).(nTried := n)
    ensures LoadOneTried(w, e).nTried == w.nTried + if taken then 0 else 1
  {
    hide Table;
    var bucket := a.hashing.TriedBucket(e.service);
    var pos := a.hashing.Position(false, bucket, e.service);
    CellOf(a.vvTried, bucket, pos);
    taken := a.vvTried[bucket, pos] != -1;
    if !taken {
      a.mapInfo := a.mapInfo[a.idCount := Loaded(e, 0, true, |a.vRandom|)];
      a.vRandom := a.vRandom + [a.idCount];
      a.mapAddr := a.mapAddr[e.service := a.idCount];
      SetCell(a.vvTried, bucket, pos, a.idCount);
      a.idCount := a.idCount + 1;
    }
  }

  lemma IndexStep(done: seq<(nat, int)>, ts: seq<Token>, bucket: nat, n: nat, nNew: int)
    requires n > 0
    ensures ts == [] || !ts[0].IntToken? ==> TakeIndexes(ts, bucket, n, nNew) == None
    ensures ts != [] && ts[0].IntToken? ==>
              var more := if 0 <= ts[0].value < nNew then done + [(bucket, ts[0].value)] else done;
              After(done, TakeIndexes(ts, bucket, n, nNew)) == After(more, TakeIndexes(ts[1..], bucket, n - 1, nNew))
  {
    if ts != [] && ts[0].IntToken? {
      var rest := TakeIndexes(ts[1..], bucket, n - 1, nNew);
      if rest.Some? {
        var one := if 0 <= ts[0].value < nNew then [(bucket, ts[0].value)] else [];
        assert done + (one + rest.value.0) == done + one + rest.value.0;
        assert one == [] ==> done + one == done;
      }
    }
  }

  lemma IndexesEnd(done: seq<(nat, int)>, ts: seq<Token>, bucket: nat, nNew: int)
    ensures After(done, TakeIndexes(ts, bucket, 0, nNew)) == Some((done, ts))
  {
    assert done + [] == done;
  }

  /** Reads the entry numbers of one bucket. */
  method ReadIndexes(ts: seq<Token>, bucket: nat, n: nat, nNew: int) returns (r: Option<(seq<(nat, int)>, seq<Token>)>)
    ensures r == TakeIndexes(ts, bucket, n, nNew)
  {
    hide TakeIndexes;
    var entries: seq<(nat, int)> := [];
    var left := ts;
    var k := 0;
    AfterNothing(TakeIndexes(ts, bucket, n, nNew));
    while k < n
      invariant 0 <= k <= n
                && After(entries, TakeIndexes(left, bucket, n - k, nNew)) == TakeIndexes(ts, bucket, n, nNew)
    {
      IndexStep(entries, left, bucket, n - k, nNew);
      if left == [] || !left[0].IntToken? {
        return None;
      }
      var index := left[0].value;
      if 0 <= index < nNew {
        entries := entries + [(bucket, index)];
      }
      left := left[1..];
      k := k + 1;
    }
    IndexesEnd(entries, left, bucket, nNew);
    r := Some((entries, left));
  }

  lemma BucketStepRead(done: seq<(nat, int)>, ts: seq<Token>, bucket: nat, nBuckets: int, nNew: int)
    requires bucket < nBuckets
    ensures ts == [] || !ts[0].IntToken? ==> TakeBuckets(ts, bucket, nBuckets, nNew) == None
    ensures ts != [] && ts[0].IntToken? ==>
              var one := TakeIndexes(ts[1..], bucket, Max0(ts[0].value), nNew);
              After(done, TakeBuckets(ts, bucket, nBuckets, nNew))
              == if one.None? then None
                 else After(done + one.value.0, TakeBuckets(one.value.1, bucket + 1, nBuckets, nNew))
  {
    hide TakeIndexes;
    if ts != [] && ts[0].IntToken? {
      var one := TakeIndexes(ts[1..], bucket, Max0(ts[0].value), nNew);
      if one.Some? {
        var rest := TakeBuckets(one.value.1, bucket + 1, nBuckets, nNew);
        if rest.Some? {
          assert done + (one.value.0 + rest.value.0) == done + one.value.0 + rest.value.0;
        }
      }
    }
  }

  lemma BucketsEnd(done: seq<(nat, int)>, ts: seq<Token>, bucket: nat, nBuckets: int, nNew: int)
    requires bucket >= nBuckets
    ensures After(done, TakeBuckets(ts, bucket, nBuckets, nNew)) == Some((done, ts))
  {
    assert done + [] == done;
  }

  /** Reads the buckets. */
  method ReadBuckets(ts: seq<Token>, nBuckets: int, nNew: int) returns (r: Option<(seq<(nat, int)>, seq<Token>)>)
    ensures r == TakeBuckets(ts, 0, nBuckets, nNew)
  {
    hide TakeBuckets, TakeIndexes;
    var entries: seq<(nat, int)> := [];
    var left := ts;
    var bucket: nat := 0;
    AfterNothing(TakeBuckets(ts, 0, nBuckets, nNew));
    while bucket < nBuckets
      invariant After(entries, TakeBuckets(left, bucket, nBuckets, nNew)) == TakeBuckets(ts, 0, nBuckets, nNew)
    {
      BucketStepRead(entries, left, bucket, nBuckets, nNew);
      if left == [] || !left[0].IntToken? {
        return None;
      }
      var one := ReadIndexes(left[1..], bucket, Max0(left[0].value), nNew);
      if one.None? {
        return None;
      }
      entries := entries + one.value.0;
      left := one.value.1;
      bucket := bucket + 1;
    }
    BucketsEnd(entries, left, bucket, nBuckets, nNew);
    r := Some((entries, left));
  }

  // ---------------------------------------------------------------- rebuilding

  /** Every bucket number that was read is below the number of buckets. */
  ghost predicate BucketsBelow(es: seq<(nat, int)>, n: int) { forall k | 0 <= k < |es| :: es[k].0 < n }

  lemma {:induction false} IndexesBelow(ts: seq<Token>, bucket: nat, n: nat, nNew: int, nBuckets: int)
    requires bucket < nBuckets
    ensures TakeIndexes(ts, bucket, n, nNew).Some? ==> BucketsBelow(TakeIndexes(ts, bucket, n, nNew).value.0, nBuckets)
  {
    if n > 0 && ts != [] {
      IndexesBelow(ts[1..], bucket, n - 1, nNew, nBuckets);
    }
  }

  lemma {:induction false} ReadBelow(ts: seq<Token>, bucket: nat, nBuckets: int, nNew: int)
    ensures TakeBuckets(ts, bucket, nBuckets, nNew).Some? ==>
              BucketsBelow(TakeBuckets(ts, bucket, nBuckets, nNew).value.0, nBuckets)
    decreases nBuckets - bucket
  {
    hide TakeIndexes;
    if bucket < nBuckets && ts != [] && ts[0].IntToken? {
      var n := Max0(ts[0].value);
      IndexesBelow(ts[1..], bucket, n, nNew, nBuckets);
      var one := TakeIndexes(ts[1..], bucket, n, nNew);
      if one.Some? {
        ReadBelow(one.value.1, bucket + 1, nBuckets, nNew);
      }
    }
  }

  /** Gives one entry back its slot, or the one its source selects. */
  method PlaceEntry(a: CAddrMan, restore: bool, bucket: nat, id: int)
    requires a.Shape() && id in a.mapInfo && id != -1 && (restore ==> bucket < NEW_BUCKET_COUNT)
    modifies a`mapInfo, a.vvNew
    ensures a.Abs() == LoadSlot(old(a.Abs()), restore, bucket, id)
  {
    hide Table;
    var info := a.mapInfo[id];
    if info.refCount >= NEW_BUCKETS_PER_ADDRESS {
      return;
    }
    var pos := a.hashing.Position(true, bucket, info.service);
    if restore {
      CellOf(a.vvNew, bucket, pos);
    }
    if restore && a.vvNew[bucket, pos] == -1 {
      SetCell(a.vvNew, bucket, pos, id);
      a.mapInfo := a.mapInfo[id := info.(refCount := info.refCount + 1)];
    } else {
      var own := a.hashing.NewBucket(info.service, info.source);
      pos := a.hashing.Position(true, own, info.service);
      CellOf(a.vvNew, own, pos);
      if a.vvNew[own, pos] == -1 {
        SetCell(a.vvNew, own, pos, id);
        a.mapInfo := a.mapInfo[id := info.(refCount := info.refCount + 1)];
      }
    }
  }

  ghost predicate IdsKnown(m: Manager,
                           es: seq<(nat, int)>) { forall k | 0 <= k < |es| :: es[k].1 in m.info && es[k].1 != -1 }

  lemma SlotEntryStep(w: Manager, restore: bool, es: seq<(nat, int)>, k: nat)
    requires IdsKnown(w, es) && k < |es|
    ensures IdsKnown(w, es[..k]) && IdsKnown(w, es[..k + 1])
    ensures es[k].1 in LoadSlots(w, restore, es[..k]).info
    ensures LoadSlots(w, restore, es[..k + 1]) == LoadSlot(LoadSlots(w, restore, es[..k]), restore, es[k].0, es[k].1)
  {
    hide LoadSlot;
    assert es[..k + 1][..k] == es[..k];
  }

  method PlaceEntries(a: CAddrMan, restore: bool, es: seq<(nat, int)>)
    requires a.Shape() && IdsKnown(a.Abs(), es) && (restore ==> BucketsBelow(es, NEW_BUCKET_COUNT))
    modifies a`mapInfo, a.vvNew
    ensures a.Abs() == LoadSlots(old(a.Abs()), restore, es)
  {
    hide LoadSlot, LoadSlots, Table;
    ghost var w := a.Abs();
    NoSlots(w, restore);
    assert es[..0] == [];
    var k := 0;
    while k < |es|
      invariant 0 <= k <= |es| && IdsKnown(w, es[..k]) && a.Abs() == LoadSlots(w, restore, es[..k])
    {
      SlotEntryStep(w, restore, es, k);
      PlaceEntry(a, restore, es[k].0, es[k].1);
      k := k + 1;
    }
    assert es[..|es|] == es;
  }

  lemma NoSlots(w: Manager, restore: bool)
    ensures LoadSlots(w, restore, []) == w
  {
  }

  /** Forgets the entries that got no slot, in ascending order. */
  method PruneEntries(a: CAddrMan)
    requires a.Shape() && RandomOk(a.mapInfo, a.vRandom)
    modifies a
    ensures a.Abs() == Prune(old(a.Abs()), old(a.mapInfo.Keys))
  {
    hide RandomOk, Delete, Table;
    ghost var w := a.Abs();
    var pending := a.mapInfo.Keys;
    while pending != {}
      invariant a.Shape() && RandomOk(a.mapInfo, a.vRandom) && pending <= a.mapInfo.Keys
      invariant Prune(a.Abs(), pending) == Prune(w, w.info.Keys)
      decreases |pending|
    {
      var id := a.LeastOf(pending);
      if !a.mapInfo[id].inTried && a.mapInfo[id].refCount == 0 {
        DeleteRandomOk(a.Abs(), id);
        a.Delete(id);
      }
      pending := pending - {id};
    }
  }

  /** Loads a manager from a stream; a stream the program rejects leaves it cleared or partly filled. */
  method Unserialize(a: CAddrMan, ts: seq<Token>, key: Hashing, rehash: Hashing -> Hashing, sum: nat) returns (ok: bool)
    requires a.Shape()
    modifies a, a.vvNew, a.vvTried
    ensures ok <==> Load(ts, a.discriminatePorts, old(a.collisions), rehash, sum).Some?
    ensures ok ==> a.Abs() == Load(ts, a.discriminatePorts, old(a.collisions), rehash, sum).value
  {
    hide TakeBody, Table, Rebuild, InRange;
    Clear(a, key);
    var header := ReadHeader(ts);
    if header.None? {
      return false;
    }
    var h := header.value;
    ok := UnserializeBody(a, ts[6..], h, rehash(h.hashing), sum);
  }

  /** The rest of a stream after its header. */
  method UnserializeBody(a: CAddrMan, ts: seq<Token>, h: Header, hashing: Hashing, sum: nat) returns (ok: bool)
    requires a.Shape() && a.Abs() == Empty(a.discriminatePorts, a.hashing).(collisions := a.collisions)
    modifies a, a.vvNew, a.vvTried
    ensures ok <==> TakeBody(ts, h).Some?
    ensures ok ==> InRange(TakeBody(ts, h).value.slots, |TakeBody(ts, h).value.news|)
    ensures ok ==> a.Abs() == Rebuild(a.discriminatePorts, old(a.collisions), hashing,
                                      h.nBuckets == NEW_BUCKET_COUNT && TakeBody(ts, h).value.sum == sum,
                                      TakeBody(ts, h).value)
  {
    hide TakeEntries, TakeBuckets, Table, LoadNew, LoadTried, LoadSlots, Prune, RandomOk, InRange, BucketsBelow;
    ghost var disc, collisions := a.discriminatePorts, a.collisions;
    TakeBodyRange(ts, h);
    a.hashing, a.nNew, a.nTried := hashing, h.nNew, h.nTried;
    ghost var start := a.Abs();
    var left, news := ReadNew(a, ts, h.nNew);
    if left.None? {
      return false;
    }
    a.idCount := a.nNew;
    ghost var w := LoadNew(disc, hashing, collisions, news);
    TakeEntriesLength(ts, h.nNew);
    LoadNewFields(disc, hashing, collisions, news);
    var left2, trieds := ReadTried(a, left.value, h.nTried, w);
    if left2.None? {
      return false;
    }
    var buckets := ReadBuckets(left2.value, h.nBuckets, h.nNew);
    if buckets.None? {
      return false;
    }
    var entries, left3 := buckets.value.0, buckets.value.1;
    var saved := 0;
    if h.format >= FORMAT_V2_ASMAP {
      if left3 == [] || !left3[0].SumToken? {
        return false;
      }
      saved := left3[0].sum;
    }
    var restore := h.nBuckets == NEW_BUCKET_COUNT && saved == sum;
    ReadBelow(left2.value, 0, h.nBuckets, h.nNew);
    EntriesKnown(disc, hashing, collisions, news, trieds, entries);
    ghost var before := a.Abs();
    PlaceEntries(a, restore, entries);
    RandomFrame(before.info, a.mapInfo, a.vRandom);
    PruneEntries(a);
    return true;
  }

  lemma LoadNewFields(disc: bool, hashing: Hashing, collisions: set<int>, es: seq<Entry>)
    ensures var w := LoadNew(disc, hashing, collisions, es);
            && w.nNew == w.idCount == |es| && w.nTried == 0
            && w.hashing == hashing && w.collisions == collisions && w.discriminatePorts == disc
  {
  }

  lemma EntriesKnown(disc: bool, hashing: Hashing, collisions: set<int>, news: seq<Entry>, trieds: seq<Entry>,
                     entries: seq<(nat, int)>)
    requires InRange(entries, |news|)
    ensures IdsKnown(LoadTried(LoadNew(disc, hashing, collisions, news), trieds), entries)
  {
    hide LoadNew, LoadTried;
    LoadNewKnows(disc, hashing, collisions, news);
  }
}
