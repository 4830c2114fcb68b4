/**
 Every level of the stack of coin caches behaves as one flat map, and the flags
 of every entry keep what they promise, over every run.
 */
module CoinsTheorems {
  import opened Options
  import opened CoinsModel

  /** The flat maps of a stack, top level first. */
  function Levels(v: View): seq<map<OutPoint, Coin>> {
    match v
    case Db(coins) => [coins]
    case Cache(_, base) => [Flat(v)] + Levels(base)
  }

  /** Two stacks that no lookup at any level can tell apart. */
  ghost predicate Same(v: View, w: View) {
    && (v.Db? <==> w.Db?)
    && (forall o :: Lookup(v, o) == Lookup(w, o))
    && (v.Cache? ==> Same(v.base, w.base))
  }

  lemma FlatExt(v: View, w: View)
    requires forall o :: Lookup(v, o) == Lookup(w, o)
    ensures Flat(v) == Flat(w)
  {
    forall o ensures Get(Flat(v), o) == Get(Flat(w), o) {
      FlatIsLookup(v, o);
      FlatIsLookup(w, o);
    }
    MapExt(Flat(v), Flat(w));
  }

  lemma MapExt(a: map<OutPoint, Coin>, b: map<OutPoint, Coin>)
    requires forall o :: Get(a, o) == Get(b, o)
    ensures a == b
  {
    forall o ensures o in a <==> o in b {
      assert Get(a, o) == Get(b, o);
    }
    forall o | o in a ensures a[o] == b[o] {
      assert Get(a, o) == Get(b, o);
    }
    assert a.Keys == b.Keys;
  }

  lemma {:induction false} SameLevels(v: View, w: View)
    requires Same(v, w)
    ensures Levels(v) == Levels(w)
  {
    FlatExt(v, w);
    if v.Cache? {
      SameLevels(v.base, w.base);
    }
  }

  lemma {:induction false} SameRefl(v: View)
    ensures Same(v, v)
  {
    if v.Cache? {
      SameRefl(v.base);
    }
  }

  // -------------------------------------------------------------------- reads

  /** A read returns what the view stands for and changes no view at any level. */
  lemma {:induction false} GetCoinOk(v: View, o: OutPoint)
    requires Inv(v)
    ensures var (v', c) := GetCoin(v, o);
            c == Lookup(v, o) && Inv(v') && Same(v, v')
    decreases v, 1
  {
    if v.Cache? {
      FetchCoinOk(v, o);
    } else {
      SameRefl(v);
    }
  }

  lemma {:induction false} FetchCoinOk(v: View, o: OutPoint)
    requires Inv(v) && v.Cache?
    ensures var (v', e) := FetchCoin(v, o);
            && v'.Cache? && Inv(v') && Same(v, v')
            && e == Get(v'.entries, o)
            && Lookup(v, o) == (if e.Some? && !e.value.coin.IsSpent() then Some(e.value.coin) else None)
    decreases v, 0
  {
    if o in v.entries {
      SameRefl(v);
    } else {
      GetCoinOk(v.base, o);
      var (base', c) := GetCoin(v.base, o);
      BelowSpent(v.base, o);
      var v' := FetchCoin(v, o).0;
      forall p ensures Lookup(v, p) == Lookup(v', p) {
        assert Lookup(v.base, p) == Lookup(base', p);
      }
      forall p | p in v'.entries ensures EntryOk(v'.entries[p], Lookup(base', p)) {
        assert Lookup(v.base, p) == Lookup(base', p);
      }
    }
  }

  /** No view stands for a spent coin. */
  lemma {:induction false} BelowSpent(v: View, o: OutPoint)
    requires Inv(v)
    ensures Lookup(v, o).Some? ==> !Lookup(v, o).value.IsSpent()
  {
    if v.Cache? {
      BelowSpent(v.base, o);
    }
  }

  // ------------------------------------------------------------------- writes

  /** The contract of AddCoin: nothing unspent is overwritten unless the caller allows it. */
  predicate MayAdd(v: View, o: OutPoint, coin: Coin, possibleOverwrite: bool) {
    !coin.IsSpent() && (possibleOverwrite || IsUnspendable(coin.script) || Lookup(v, o).None?)
  }

  /** What one entry of a cache determines. */
  lemma OneEntry(v: View, w: View, o: OutPoint)
    requires v.Cache? && w.Cache? && v.base == w.base && Inv(v)
    requires forall p | p != o :: Get(v.entries, p) == Get(w.entries, p)
    requires o in w.entries ==> EntryOk(w.entries[o], Lookup(w.base, o))
    ensures Inv(w) && forall p | p != o :: Lookup(w, p) == Lookup(v, p)
  {
    forall p | p != o ensures Lookup(w, p) == Lookup(v, p) {
      assert Get(v.entries, p) == Get(w.entries, p);
    }
    forall p | p in w.entries ensures EntryOk(w.entries[p], Lookup(w.base, p)) {
      if p != o {
        assert Get(v.entries, p) == Get(w.entries, p);
      }
    }
  }

  lemma AddCoinOk(v: View, o: OutPoint, coin: Coin, possibleOverwrite: bool)
    requires Inv(v) && v.Cache? && MayAdd(v, o, coin, possibleOverwrite)
    ensures !AddThrows(v, o, coin, possibleOverwrite)
    ensures var w := AddCoin(v, o, coin, possibleOverwrite);
            && Inv(w) && w.Cache? && w.base == v.base
            && forall p :: Lookup(w, p) ==
                 if p == o && !IsUnspendable(coin.script) then Some(coin) else Lookup(v, p)
  {
    if !IsUnspendable(coin.script) {
      OneEntry(v, AddCoin(v, o, coin, possibleOverwrite), o);
    }
  }

  /** Exactly the calls that respect the contract neither throw nor break what the flags promise. */
  lemma AddCoinExact(v: View, o: OutPoint, coin: Coin, possibleOverwrite: bool)
    requires Inv(v) && v.Cache? && !coin.IsSpent()
    ensures (!AddThrows(v, o, coin, possibleOverwrite) && Inv(AddCoin(v, o, coin, possibleOverwrite)))
              <==> MayAdd(v, o, coin, possibleOverwrite)
  {
    if MayAdd(v, o, coin, possibleOverwrite) {
      AddCoinOk(v, o, coin, possibleOverwrite);
    } else if !AddThrows(v, o, coin, possibleOverwrite) {
      var w := AddCoin(v, o, coin, possibleOverwrite);
      assert o in w.entries && w.entries[o].isFresh ==> !EntryOk(w.entries[o], Lookup(w.base, o));
    }
  }

  /** Spending removes the coin from the top view only. */
  lemma SpendCoinOk(v: View, o: OutPoint)
    requires Inv(v) && v.Cache?
    ensures var (w, c) := SpendCoin(v, o);
            && Inv(w) && w.Cache? && Same(v.base, w.base)
            && (forall p :: Lookup(w, p) == if p == o then None else Lookup(v, p))
            && (Lookup(v, o).Some? ==> c == Lookup(v, o))
            && (c.Some? && !c.value.IsSpent() ==> c == Lookup(v, o))
  {
    FetchCoinOk(v, o);
    var f := FetchCoin(v, o).0;
    var w := SpendCoin(v, o).0;
    OneEntry(f, w, o);
    forall p ensures Lookup(w, p) == if p == o then None else Lookup(v, p) {
      assert Lookup(f, p) == Lookup(v, p);
    }
  }

  lemma UncacheOk(v: View, o: OutPoint)
    requires Inv(v) && v.Cache?
    ensures Inv(Uncache(v, o)) && Same(v, Uncache(v, o))
  {
    var w := Uncache(v, o);
    OneEntry(v, w, o);
    SameRefl(v.base);
    assert Lookup(w, o) == Lookup(v, o);
    forall p ensures Lookup(w, p) == Lookup(v, p) {
    }
  }

  // -------------------------------------------------------------------- flush

  lemma MergedGet(ours: Entries, theirs: Entries, o: OutPoint)
    ensures Get(Merged(ours, theirs), o) == MergedAt(ours, theirs, o)
  {
  }

  lemma WrittenGet(coins: map<OutPoint, Coin>, theirs: Entries, o: OutPoint)
    ensures Get(Written(coins, theirs), o) == WrittenAt(coins, theirs, o)
  {
  }

  /** One merged entry: its flags are right, and it stands for what the written entry stands for. */
  lemma MergeEntryOk(ours: Option<Entry>, theirs: Entry, below: Option<Coin>)
    requires ours.Some? ==> EntryOk(ours.value, below)
    requires theirs.dirty
    requires var mine := if ours.None? then below else if ours.value.coin.IsSpent() then None
                         else Some(ours.value.coin);
             EntryOk(theirs, mine)
    ensures var r := MergeEntry(ours, theirs);
            && (r.Some? ==> EntryOk(r.value, below))
            && (if r.None? then below else if r.value.coin.IsSpent() then None else Some(r.value.coin))
                 == if theirs.coin.IsSpent() then None else Some(theirs.coin)
  {
  }

  /** Writing the entries of a cache into the view below makes that view equal to the cache. */
  lemma BatchWriteOk(v: View)
    requires Inv(v) && v.Cache?
    ensures var b := BatchWrite(v.base, v.entries);
            && Inv(b) && (b.Db? <==> v.base.Db?) && (b.Cache? ==> b.base == v.base.base)
            && forall o :: Lookup(b, o) == Lookup(v, o)
    ensures v.base.Cache? ==> forall o :: !Misapplied(v.base.entries, v.entries, o)
  {
    var b := BatchWrite(v.base, v.entries);
    if v.base.Db? {
      forall o ensures Lookup(b, o) == Lookup(v, o) {
        WrittenGet(v.base.coins, v.entries, o);
      }
      forall o | o in b.coins ensures !b.coins[o].IsSpent() {
        WrittenGet(v.base.coins, v.entries, o);
      }
    } else {
      CacheWriteOk(v, b);
    }
  }

  lemma CacheWriteOk(v: View, b: View)
    requires Inv(v) && v.Cache? && v.base.Cache? && b == BatchWrite(v.base, v.entries)
    ensures Inv(b) && forall o :: Lookup(b, o) == Lookup(v, o)
    ensures forall o :: !Misapplied(v.base.entries, v.entries, o)
  {
    hide EntryOk, MergeEntry, Merged;
    var ours, theirs := v.base.entries, v.entries;
    forall o
      ensures Lookup(b, o) == Lookup(v, o) && !Misapplied(ours, theirs, o)
      ensures o in b.entries ==> EntryOk(b.entries[o], Lookup(b.base, o))
    {
      MergedGet(ours, theirs, o);
      if o in theirs {
        FlagFacts(theirs[o], Lookup(v.base, o));
        if theirs[o].dirty {
          MergeEntryOk(Get(ours, o), theirs[o], Lookup(v.base.base, o));
        }
      }
    }
  }

  lemma FlagFacts(e: Entry, below: Option<Coin>)
    requires EntryOk(e, below)
    ensures !e.dirty ==> below == if e.coin.IsSpent() then None else Some(e.coin)
    ensures e.isFresh ==> below.None?
  {
  }

  /** Flush leaves the view of the cache alone and makes the view below equal to it. */
  lemma FlushOk(v: View)
    requires Inv(v) && v.Cache?
    ensures var w := Flush(v);
            && Inv(w) && w.Cache? && (w.base.Db? <==> v.base.Db?)
            && (forall o :: Lookup(w, o) == Lookup(v, o) && Lookup(w.base, o) == Lookup(v, o))
            && (w.base.Cache? ==> w.base.base == v.base.base)
  {
    BatchWriteOk(v);
  }

  // --------------------------------------------------------------------- runs

  /** Applies an operation at a level below the top. */
  function At(v: View, k: nat, f: View -> View): View {
    if k == 0 then f(v) else if v.Db? then v else Cache(v.entries, At(v.base, k - 1, f))
  }

  function ReadStep(o: OutPoint): View -> View { (v: View) => GetCoin(v, o).0 }

  function UncacheStep(o: OutPoint): View -> View { (v: View) => if v.Cache? then Uncache(v, o) else v }

  function FlushStep(): View -> View { (v: View) => if v.Cache? then Flush(v) else v }

  /** One call; reads, Uncache and Flush may address any level, changes address the top cache. */
  datatype Operation =
    | OpGet(level: nat, outpoint: OutPoint)
    | OpAdd(outpoint: OutPoint, coin: Coin, possibleOverwrite: bool)
    | OpSpend(outpoint: OutPoint)
    | OpUncache(level: nat, outpoint: OutPoint)
    | OpFlush(level: nat)
    | OpPushCache
    | OpDropCache

  predicate Allowed(v: View, op: Operation) {
    match op
    case OpAdd(o, coin, po) => v.Cache? && MayAdd(v, o, coin, po)
    case OpSpend(_) => v.Cache?
    case OpDropCache => v.Cache?
    case _ => true
  }

  function Apply(v: View, op: Operation): View
    requires Allowed(v, op)
  {
    match op
    case OpGet(k, o) => At(v, k, ReadStep(o))
    case OpAdd(o, coin, po) => AddCoin(v, o, coin, po)
    case OpSpend(o) => SpendCoin(v, o).0
    case OpUncache(k, o) => At(v, k, UncacheStep(o))
    case OpFlush(k) => At(v, k, FlushStep())
    case OpPushCache => Cache(map[], v)
    case OpDropCache => v.base
  }

  /** The same call on the flat maps of the levels: no flags, no caching. */
  function ApplyFlat(levels: seq<map<OutPoint, Coin>>, op: Operation): seq<map<OutPoint, Coin>>
    requires levels != []
  {
    match op
    case OpGet(_, _) => levels
    case OpAdd(o, coin, _) => if IsUnspendable(coin.script) then levels else levels[0 := levels[0][o := coin]]
    case OpSpend(o) => levels[0 := levels[0] - {o}]
    case OpUncache(_, _) => levels
    case OpFlush(k) => if k + 1 < |levels| then levels[k + 1 := levels[k]] else levels
    case OpPushCache => [levels[0]] + levels
    case OpDropCache => levels[1..]
  }

  /** A step that no lookup at any level can notice. */
  ghost predicate Harmless(f: View -> View) {
    forall w {:trigger f(w)} | Inv(w) :: Inv(f(w)) && Same(w, f(w))
  }

  lemma {:induction false} AtSame(v: View, k: nat, f: View -> View)
    requires Inv(v) && Harmless(f)
    ensures Inv(At(v, k, f)) && Same(v, At(v, k, f))
  {
    hide EntryOk, Lookup;
    if k == 0 {
    } else if v.Db? {
      SameRefl(v);
    } else {
      AtSame(v.base, k - 1, f);
      Above(v, At(v.base, k - 1, f));
    }
  }

  /** A cache stays right when the view below it changes without changing what it stands for. */
  lemma Above(v: View, base': View)
    requires Inv(v) && v.Cache? && Inv(base') && forall o :: Lookup(v.base, o) == Lookup(base', o)
    ensures Inv(Cache(v.entries, base')) && forall o :: Lookup(Cache(v.entries, base'), o) == Lookup(v, o)
  {
    hide EntryOk;
    forall o ensures Lookup(Cache(v.entries, base'), o) == Lookup(v, o) {
      assert Lookup(v.base, o) == Lookup(base', o);
    }
    forall o | o in v.entries ensures EntryOk(v.entries[o], Lookup(base', o)) {
      assert Lookup(v.base, o) == Lookup(base', o);
    }
  }

  lemma {:induction false} FlushLevels(v: View, k: nat)
    requires Inv(v)
    ensures var w := At(v, k, FlushStep());
            && Inv(w) && (forall o :: Lookup(w, o) == Lookup(v, o))
            && Levels(w) == ApplyFlat(Levels(v), OpFlush(k))
  {
    hide Flat, Lookup, Flush;
    if v.Cache? {
      if k == 0 {
        FlushOk(v);
        var w := Flush(v);
        FlatExt(v, w);
        FlatExt(w.base, v);
        LevelsOf(v.base);
        LevelsOf(w.base);
      } else {
        FlushLevels(v.base, k - 1);
        var b := At(v.base, k - 1, FlushStep());
        Above(v, b);
        FlatExt(v, Cache(v.entries, b));
      }
    }
  }

  lemma LevelsOf(v: View)
    ensures |Levels(v)| >= 1 && Levels(v)[0] == Flat(v)
    ensures Levels(v)[1..] == if v.Cache? then Levels(v.base) else []
  {
  }

  lemma ApplyRead(v: View, op: Operation)
    requires Inv(v) && (op.OpGet? || op.OpUncache?)
    ensures Inv(Apply(v, op)) && Levels(Apply(v, op)) == Levels(v)
  {
    var f := if op.OpGet? then ReadStep(op.outpoint) else UncacheStep(op.outpoint);
    forall w | Inv(w) ensures Inv(f(w)) && Same(w, f(w)) {
      if op.OpGet? {
        GetCoinOk(w, op.outpoint);
      } else if w.Cache? {
        UncacheOk(w, op.outpoint);
      } else {
        SameRefl(w);
      }
    }
    AtSame(v, op.level, f);
    SameLevels(v, At(v, op.level, f));
  }

  lemma ApplyAdd(v: View, o: OutPoint, coin: Coin, po: bool)
    requires Inv(v) && v.Cache? && MayAdd(v, o, coin, po)
    ensures var w := AddCoin(v, o, coin, po);
            Inv(w) && Levels(w) == ApplyFlat(Levels(v), OpAdd(o, coin, po))
  {
    AddCoinOk(v, o, coin, po);
    if !IsUnspendable(coin.script) {
      var w := AddCoin(v, o, coin, po);
      hide AddCoin;
      forall p ensures Get(Flat(w), p) == Get(Flat(v)[o := coin], p) {
        FlatIsLookup(w, p);
        FlatIsLookup(v, p);
      }
      MapExt(Flat(w), Flat(v)[o := coin]);
    }
  }

  lemma ApplySpend(v: View, o: OutPoint)
    requires Inv(v) && v.Cache?
    ensures var w := SpendCoin(v, o).0;
            Inv(w) && Levels(w) == ApplyFlat(Levels(v), OpSpend(o))
  {
    hide SpendCoin, Flat, Lookup, Inv, Same;
    SpendCoinOk(v, o);
    var w := SpendCoin(v, o).0;
    forall p ensures Get(Flat(w), p) == Get(Flat(v) - {o}, p) {
      FlatIsLookup(w, p);
      FlatIsLookup(v, p);
    }
    MapExt(Flat(w), Flat(v) - {o});
    SameLevels(v.base, w.base);
    LevelsOf(v);
    LevelsOf(w);
  }

  /** Every call does to the flat maps what it says, and keeps the flags right. */
  lemma ApplyOk(v: View, op: Operation)
    requires Inv(v) && Allowed(v, op)
    ensures Inv(Apply(v, op)) && Levels(v) != [] && Levels(Apply(v, op)) == ApplyFlat(Levels(v), op)
  {
    LevelsOf(v);
    match op {
      case OpGet(_, _) => ApplyRead(v, op);
      case OpAdd(o, coin, po) => ApplyAdd(v, o, coin, po);
      case OpSpend(o) => ApplySpend(v, o);
      case OpUncache(_, _) => ApplyRead(v, op);
      case OpFlush(k) => FlushLevels(v, k);
      case OpPushCache =>
        var w := Cache(map[], v);
        FlatExt(w, v);
      case OpDropCache =>
    }
  }

  /** A run in which every call is allowed. */
  ghost predicate AllowedRun(v: View, ops: seq<Operation>)
    decreases |ops|
  {
    ops == [] || (Allowed(v, ops[0]) && AllowedRun(Apply(v, ops[0]), ops[1..]))
  }

  ghost function Run(v: View, ops: seq<Operation>): View
    requires AllowedRun(v, ops)
    decreases |ops|
  {
    if ops == [] then v else Run(Apply(v, ops[0]), ops[1..])
  }

  ghost function RunFlat(levels: seq<map<OutPoint, Coin>>, ops: seq<Operation>): seq<map<OutPoint, Coin>>
    decreases |ops|
  {
    if ops == [] || levels == [] then levels else RunFlat(ApplyFlat(levels, ops[0]), ops[1..])
  }

  /** Over every run, each level of the stack is the flat map that the calls alone determine. */
  lemma {:induction false} RunsAreFlat(v: View, ops: seq<Operation>)
    requires Inv(v) && AllowedRun(v, ops)
    ensures Inv(Run(v, ops)) && Levels(Run(v, ops)) == RunFlat(Levels(v), ops)
    decreases |ops|
  {
    LevelsOf(v);
    if ops != [] {
      ApplyOk(v, ops[0]);
      RunsAreFlat(Apply(v, ops[0]), ops[1..]);
    }
  }

  /** What a read returns at any point of any run: the entry of the flat map. */
  lemma ReadsAreFlat(v: View, ops: seq<Operation>, o: OutPoint)
    requires Inv(v) && AllowedRun(v, ops)
    ensures RunFlat(Levels(v), ops) != []
    ensures GetCoin(Run(v, ops), o).1 == Get(RunFlat(Levels(v), ops)[0], o)
  {
    RunsAreFlat(v, ops);
    var w := Run(v, ops);
    LevelsOf(w);
    GetCoinOk(w, o);
    FlatIsLookup(w, o);
  }

  /** The entry that the cache at a level of a stack has for an outpoint, if any. */
  ghost function EntryAt(v: View, k: nat, o: OutPoint): Option<Entry> {
    if v.Db? then None else if k == 0 then Get(v.entries, o) else EntryAt(v.base, k - 1, o)
  }

  lemma {:induction false} FlagsAt(v: View, k: nat, o: OutPoint)
    requires Inv(v) && EntryAt(v, k, o).Some?
    ensures k + 1 < |Levels(v)|
    ensures var e, here, below := EntryAt(v, k, o).value, Get(Levels(v)[k], o), Get(Levels(v)[k + 1], o);
            && (!e.dirty ==> here == below) && (e.isFresh ==> below.None?)
            && here == if e.coin.IsSpent() then None else Some(e.coin)
  {
    LevelsOf(v);
    LevelsOf(v.base);
    if k == 0 {
      FlatIsLookup(v, o);
      FlatIsLookup(v.base, o);
    } else {
      FlagsAt(v.base, k - 1, o);
      assert Levels(v)[k] == Levels(v.base)[k - 1] && Levels(v)[k + 1] == Levels(v.base)[k];
    }
  }

  /**
   What the flags tell at any point of any run, in terms of the calls alone: an entry that is not DIRTY agrees
   with the level below, and the level below has no coin where an entry is FRESH.
   */
  lemma FlagsOverRuns(v: View, ops: seq<Operation>, k: nat, o: OutPoint)
    requires Inv(v) && AllowedRun(v, ops) && EntryAt(Run(v, ops), k, o).Some?
    ensures k + 1 < |RunFlat(Levels(v), ops)|
    ensures var e, levels := EntryAt(Run(v, ops), k, o).value, RunFlat(Levels(v), ops);
            && (!e.dirty ==> Get(levels[k], o) == Get(levels[k + 1], o))
            && (e.isFresh ==> o !in levels[k + 1])
            && Get(levels[k], o) == if e.coin.IsSpent() then None else Some(e.coin)
  {
    hide Levels, RunFlat, Inv, EntryAt;
    RunsAreFlat(v, ops);
    FlagsAt(Run(v, ops), k, o);
  }
}
