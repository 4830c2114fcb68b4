/**
 Compact blocks as the program handles them: loops that fill the slots, the map
 of short ids and the counters of a partially downloaded block.
 */
module CompactBlock {
  import opened Options
  import opened CompactBlockModel

  datatype ReadStatus = READ_STATUS_OK | READ_STATUS_INVALID | READ_STATUS_FAILED | READ_STATUS_CHECKBLOCK_FAILED

  /** What the check of a completed block says. */
  datatype Verdict = Accepted | Mutated | Rejected

  /** The message of a block. */
  method MakeMessage(vtx: seq<Tx>, stake: bool, shortId: nat -> nat) returns (m: Message)
    requires |vtx| >= PrefilledCount(stake)
    ensures m == Make(vtx, stake, shortId)
  {
    var prefilled := [Prefilled(0, vtx[0])];
    if stake {
      prefilled := prefilled + [Prefilled(0, vtx[1])];
    }
    var ids: seq<nat> := [];
    var i := |prefilled|;
    while i < |vtx|
      invariant |prefilled| <= i <= |vtx| && ids == ShortIds(vtx, shortId, |prefilled|)[..i - |prefilled|]
    {
      ids := ids + [shortId(vtx[i].hash)];
      i := i + 1;
    }
    m := Message(false, ids, prefilled);
  }

  class PartiallyDownloadedBlock {
    var headerNull: bool
    var txnAvailable: Slots
    var prefilledCount: nat
    var mempoolCount: int
    var extraCount: int

    constructor ()
      ensures headerNull && txnAvailable == [] && prefilledCount == mempoolCount == extraCount == 0
    {
      headerNull, txnAvailable, prefilledCount, mempoolCount, extraCount := true, [], 0, 0, 0;
    }

    /** Places the prefilled transactions, or reports a bad one. */
    method PlacePrefilled(m: Message) returns (ok: bool)
      requires Received(m) && |txnAvailable| == TxCount(m) && forall p | 0 <= p < TxCount(m) :: txnAvailable[p] == None
      modifies this`txnAvailable
      ensures ok <==> Placeable(m, |m.prefilled|)
      ensures ok ==> txnAvailable == AllPlaced(m)
    {
      var last := -1;
      var i := 0;
      while i < |m.prefilled|
        invariant 0 <= i <= |m.prefilled| && last == Position(m, i - 1) >= -1
        invariant Placeable(m, i) && txnAvailable == Placed(m, i)
      {
        if m.prefilled[i].tx.isNull {
          return false;
        }
        last := last + (m.prefilled[i].index + 1);
        if last > MAX_INDEX {
          return false;
        }
        if last > |m.shortIds| + i {
          return false;
        }
        txnAvailable := txnAvailable[last := Some(m.prefilled[i].tx)];
        i := i + 1;
      }
      ok := true;
    }

    /** Gives each short id the next empty slot, or stops at an uneven map. */
    method MapShortIds(m: Message, uneven: Uneven) returns (ok: bool, places: map<nat, nat>)
      requires Received(m) && Placeable(m, |m.prefilled|) && txnAvailable == AllPlaced(m)
      ensures ok <==> !TooUneven(m, uneven)
      ensures ok ==> places == Places(m)
    {
      hide EmptyFrom, Placed, Placeable, NthEmpty, SlotMap, NextEmpty;
      SlotMapNone(txnAvailable, m.shortIds);
      EmptyAfterPlacing(m, |m.prefilled|);
      places := map[];
      var offset := 0;
      var i := 0;
      while i < |m.shortIds|
        invariant 0 <= i <= |m.shortIds| && 0 <= offset && i + offset <= |txnAvailable|
        invariant i + offset == if i == 0 then 0 else NthEmpty(txnAvailable, i - 1) + 1
        invariant places == SlotMap(txnAvailable, m.shortIds, i)
        invariant forall k | 0 <= k < i :: !uneven(SlotMap(txnAvailable, m.shortIds, k + 1), m.shortIds[k])
      {
        NthEmptyCount(txnAvailable, i);
        NthFollows(txnAvailable, i);
        SlotMapStep(txnAvailable, m.shortIds, i);
        offset := SkipFilled(i, offset);
        // The slot number fits in 16 bits.
        assert i + offset <= MAX_INDEX;
        places := places[m.shortIds[i] := i + offset];
        if uneven(places, m.shortIds[i]) {
          return false, places;
        }
        i := i + 1;
      }
      ok := true;
    }

    /** Moves past filled slots. */
    method SkipFilled(i: nat, offset: nat) returns (r: nat)
      requires i + offset <= |txnAvailable| && NextEmpty(txnAvailable, i + offset) < |txnAvailable|
      ensures i + r == NextEmpty(txnAvailable, i + offset)
    {
      r := offset;
      while txnAvailable[i + r].Some?
        invariant offset <= r && i + r <= NextEmpty(txnAvailable, i + offset)
        decreases |txnAvailable| - (i + r)
      {
        r := r + 1;
      }
    }

    /** Goes through transactions at hand until every short id has one. */
    method Search(places: map<nat, nat>, offers: seq<Offer>, extra: bool, have: seq<bool>) returns (have': seq<bool>)
      requires Fits(places, Now(have))
      modifies this`txnAvailable, this`mempoolCount, this`extraCount
      ensures Now(have') == Scan(places, old(Now(have)), offers, 0, extra)
    {
      hide Step, Fits;
      have' := have;
      ghost var start := Now(have);
      var i := 0;
      while i < |offers|
        invariant 0 <= i <= |offers| && Fits(places, Now(have'))
        invariant Scan(places, Now(have'), offers, i, extra) == Scan(places, start, offers, 0, extra)
      {
        if extra {
          have' := TakeExtra(places, offers[i], have');
        } else {
          have' := TakeFromPool(places, offers[i], have');
        }
        i := i + 1;
        if mempoolCount == |places| {
          break;
        }
      }
    }

    ghost function Now(have: seq<bool>): CompactBlockModel.Search
      reads this
    {
      CompactBlockModel.Search(txnAvailable, have, mempoolCount, extraCount)
    }

    method TakeFromPool(places: map<nat, nat>, o: Offer, have: seq<bool>) returns (have': seq<bool>)
      requires Fits(places, Now(have))
      modifies this`txnAvailable, this`mempoolCount
      ensures Now(have') == Step(places, old(Now(have)), o, false)
    {
      have' := have;
      if o.id in places {
        var p := places[o.id];
        if !have[p] {
          txnAvailable := txnAvailable[p := Some(o.tx)];
          have' := have[p := true];
          mempoolCount := mempoolCount + 1;
        } else if txnAvailable[p].Some? {
          txnAvailable := txnAvailable[p := None];
          mempoolCount := mempoolCount - 1;
        }
      }
    }

    method TakeExtra(places: map<nat, nat>, o: Offer, have: seq<bool>) returns (have': seq<bool>)
      requires Fits(places, Now(have))
      modifies this`txnAvailable, this`mempoolCount, this`extraCount
      ensures Now(have') == Step(places, old(Now(have)), o, true)
    {
      have' := have;
      if o.id in places {
        var p := places[o.id];
        if !have[p] {
          txnAvailable := txnAvailable[p := Some(o.tx)];
          have' := have[p := true];
          mempoolCount := mempoolCount + 1;
          extraCount := extraCount + 1;
        } else if txnAvailable[p].Some? && txnAvailable[p].value.hash != o.tx.hash {
          txnAvailable := txnAvailable[p := None];
          mempoolCount := mempoolCount - 1;
          extraCount := extraCount - 1;
        }
      }
    }

    /** Sets the block up from a message and what is at hand. */
    method InitData(m: Message, maxCount: nat, uneven: Uneven, pool: seq<Offer>,
                    extra: seq<Offer>) returns (status: ReadStatus)
      requires Received(m) && headerNull && txnAvailable == [] && mempoolCount == extraCount == 0
      modifies this
      ensures status == match Init(m, maxCount, uneven, pool, extra)
                        case Invalid => READ_STATUS_INVALID
                        case Failed => READ_STATUS_FAILED
                        case Ready(_) => READ_STATUS_OK
      ensures status.READ_STATUS_OK? ==>
                var s := Init(m, maxCount, uneven, pool, extra).search;
                && txnAvailable == s.slots && mempoolCount == s.count && extraCount == s.extraCount
                && prefilledCount == |m.prefilled| && !headerNull
    {
      hide Placeable, Placed, Scan, TooUneven, SlotMap;
      if m.headerNull || (m.shortIds == [] && m.prefilled == []) {
        return READ_STATUS_INVALID;
      }
      if |m.shortIds| + |m.prefilled| > maxCount {
        return READ_STATUS_INVALID;
      }
      headerNull := false;
      txnAvailable := seq(TxCount(m), _ => None);
      var ok := PlacePrefilled(m);
      if !ok {
        return READ_STATUS_INVALID;
      }
      prefilledCount := |m.prefilled|;
      var places;
      ok, places := MapShortIds(m, uneven);
      if !ok {
        return READ_STATUS_FAILED;
      }
      if |places| != |m.shortIds| {
        return READ_STATUS_FAILED;
      }
      PlacesInRange(m);
      var have := seq(|txnAvailable|, _ => false);
      assert Now(have) == Start(m);
      have := Search(places, pool, false, have);
      have := Search(places, extra, true, have);
      return READ_STATUS_OK;
    }

    /** Completes the block with the transactions that were missing, which uses the slots up. */
    method FillBlock(missing: seq<Tx>, check: seq<Tx> -> Verdict) returns (status: ReadStatus, vtx: seq<Tx>)
      requires !headerNull
      modifies this`txnAvailable, this`headerNull
      ensures var whole := Complete(old(txnAvailable), missing, 0, 0);
              status == if whole.None? then READ_STATUS_INVALID
                        else match check(whole.value)
                             case Accepted => READ_STATUS_OK
                             case Mutated => READ_STATUS_FAILED
                             case Rejected => READ_STATUS_CHECKBLOCK_FAILED
      ensures Complete(old(txnAvailable), missing, 0, 0).Some? ==>
                vtx == Complete(old(txnAvailable), missing, 0, 0).value
      ensures |missing| >= EmptyFrom(old(txnAvailable), 0) ==> headerNull && txnAvailable == []
      ensures |missing| < EmptyFrom(old(txnAvailable), 0) ==>
                !headerNull && txnAvailable == Moved(old(txnAvailable), NthEmpty(old(txnAvailable), |missing|))
    {
      hide Complete, EmptyFrom, NthEmpty, Continues;
      var slots := txnAvailable;
      vtx := [];
      var offset := 0;
      var i := 0;
      CompleteExact(slots, missing, 0, 0);
      CompleteStart(slots, missing);
      MovedNone(slots);
      while i < |slots|
        invariant 0 <= i <= |slots| && offset <= |missing| && !headerNull
        invariant txnAvailable == Moved(slots, i)
        invariant Continues(slots, missing, vtx, i, offset)
        invariant |missing| - offset - EmptyFrom(slots, i) == |missing| - EmptyFrom(slots, 0)
        modifies this`txnAvailable
      {
        CompleteStep(slots, missing, vtx, i, offset);
        MovedStep(slots, i);
        if txnAvailable[i].None? {
          if |missing| <= offset {
            EmptyAt(slots, i, offset);
            return READ_STATUS_INVALID, vtx;
          }
          vtx := vtx + [missing[offset]];
          offset := offset + 1;
        } else {
          vtx := vtx + [txnAvailable[i].value];
          txnAvailable := txnAvailable[i := None];
        }
        i := i + 1;
      }
      CompleteEnd(slots, missing, vtx, offset);
      headerNull := true;
      txnAvailable := [];
      if |missing| != offset {
        return READ_STATUS_INVALID, vtx;
      }
      var verdict := check(vtx);
      match verdict {
        case Accepted => status := READ_STATUS_OK;
        case Mutated => status := READ_STATUS_FAILED;
        case Rejected => status := READ_STATUS_CHECKBLOCK_FAILED;
      }
    }
  }

  /** The slots after those before a position have been moved into the block. */
  ghost function Moved(slots: Slots, i: nat): Slots
    requires i <= |slots|
  {
    seq(i, _ => None) + slots[i..]
  }

  lemma MovedNone(slots: Slots)
    ensures Moved(slots, 0) == slots
  {
  }

  lemma MovedStep(slots: Slots, i: nat)
    requires i < |slots|
    ensures Moved(slots, i)[i] == slots[i] && Moved(slots, i + 1) == Moved(slots, i)[i := None]
    ensures slots[i].None? ==> Moved(slots, i + 1) == Moved(slots, i)
  {
  }

  /** The empty slot with a given number of empty slots before it. */
  lemma EmptyAt(slots: Slots, i: nat, n: nat)
    requires i < |slots| && slots[i].None? && EmptyFrom(slots, i) == EmptyFrom(slots, 0) - n
    ensures NthEmpty(slots, n) == i
  {
    hide NthEmpty, EmptyFrom;
    var j := EmptyIsNth(slots, i);
    NthEmptyCount(slots, j);
  }

  lemma CompleteStart(slots: Slots, missing: seq<Tx>)
    ensures Continues(slots, missing, [], 0, 0)
  {
  }

  lemma SlotMapNone(slots: Slots, ids: seq<nat>)
    ensures SlotMap(slots, ids, 0) == map[]
  {
  }

  lemma SlotMapStep(slots: Slots, ids: seq<nat>, n: nat)
    requires n < |ids|
    ensures SlotMap(slots, ids, n + 1) == SlotMap(slots, ids, n)[ids[n] := NthEmpty(slots, n)]
  {
  }

  lemma NthFollows(slots: Slots, i: nat)
    requires NthEmpty(slots, i) < |slots|
    ensures i == 0 ==> NthEmpty(slots, i) == NextEmpty(slots, 0)
    ensures i > 0 ==>
              NthEmpty(slots, i - 1) < |slots|
              && NthEmpty(slots, i) == NextEmpty(slots, NthEmpty(slots, i - 1) + 1)
  {
  }

  /** What has been built so far, followed by what completes the rest, is the whole. */
  ghost predicate Continues(slots: Slots, missing: seq<Tx>, vtx: seq<Tx>, i: nat, offset: nat)
    requires i <= |slots| && offset <= |missing|
  {
    var whole, rest := Complete(slots, missing, 0, 0), Complete(slots, missing, i, offset);
    (whole.None? <==> rest.None?) && (whole.Some? ==> whole.value == vtx + rest.value)
  }

  lemma CompleteStep(slots: Slots, missing: seq<Tx>, vtx: seq<Tx>, i: nat, offset: nat)
    requires i < |slots| && offset <= |missing| && Continues(slots, missing, vtx, i, offset)
    ensures slots[i].Some? ==>
              && Continues(slots, missing, vtx + [slots[i].value], i + 1, offset)
              && EmptyFrom(slots, i + 1) == EmptyFrom(slots, i)
    ensures slots[i].None? ==> EmptyFrom(slots, i + 1) == EmptyFrom(slots, i) - 1
    ensures slots[i].None? && offset < |missing| ==>
              Continues(slots, missing, vtx + [missing[offset]], i + 1, offset + 1)
    ensures slots[i].None? && offset == |missing| ==> Complete(slots, missing, 0, 0).None?
  {
  }

  lemma CompleteEnd(slots: Slots, missing: seq<Tx>, vtx: seq<Tx>, offset: nat)
    requires offset <= |missing| && Continues(slots, missing, vtx, |slots|, offset)
    ensures EmptyFrom(slots, |slots|) == 0
    ensures offset == |missing| <==> Complete(slots, missing, 0, 0).Some?
    ensures offset == |missing| ==> Complete(slots, missing, 0, 0) == Some(vtx)
  {
    assert vtx + [] == vtx;
  }

  /** Writes or reads a list of increasing numbers as differences. */
  class DifferenceFormatter {
    var shift: nat

    constructor ()
      ensures shift == 0
    {
      shift := 0;
    }

    method Ser(v: nat) returns (r: Option<nat>)
      requires shift <= UINT64_MAX
      modifies this
      ensures r == if v < old(shift) || v >= UINT64_MAX then None else Some(v - old(shift))
      ensures r.Some? ==> shift == v + 1 <= UINT64_MAX
    {
      if v < shift || v >= UINT64_MAX {
        return None;
      }
      r := Some(v - shift);
      shift := v + 1;
    }

    method Unser(n: nat, maxValue: nat) returns (r: Option<nat>)
      requires shift <= UINT64_MAX && n <= UINT64_MAX
      modifies this
      ensures r == if Unreadable(old(shift), n, maxValue) then None else Some(Wrapped(old(shift), n))
      ensures r.Some? ==> shift == r.value + 1 <= UINT64_MAX
    {
      shift := (shift + n) % (UINT64_MAX + 1);
      if shift < n || shift >= UINT64_MAX || shift > maxValue {
        return None;
      }
      r := Some(shift);
      shift := shift + 1;
    }

    /** A whole list, element by element. */
    method SerAll(values: seq<nat>) returns (r: Option<seq<nat>>)
      requires shift == 0
      modifies this
      ensures r == Differences(0, values)
    {
      var done: seq<nat> := [];
      var i := 0;
      assert values[0..] == values && forall s: seq<nat> :: [] + s == s;
      while i < |values|
        invariant 0 <= i <= |values| && shift <= UINT64_MAX
        invariant Joined(done, Differences(shift, values[i..])) == Differences(0, values)
      {
        assert values[i..][0] == values[i] && values[i..][1..] == values[i + 1..];
        JoinStep(done, shift, values[i..]);
        var n := Ser(values[i]);
        if n.None? {
          return None;
        }
        done := done + [n.value];
        i := i + 1;
      }
      r := Some(done);
      assert done + [] == done;
    }

    /** A whole list back, element by element. */
    method UnserAll(diffs: seq<nat>, maxValue: nat) returns (r: Option<seq<nat>>)
      requires shift == 0 && forall i | 0 <= i < |diffs| :: diffs[i] <= UINT64_MAX
      modifies this
      ensures r == FromDifferences(0, diffs, maxValue)
    {
      var done: seq<nat> := [];
      var i := 0;
      assert diffs[0..] == diffs && forall s: seq<nat> :: [] + s == s;
      while i < |diffs|
        invariant 0 <= i <= |diffs| && shift <= UINT64_MAX
        invariant Joined(done, FromDifferences(shift, diffs[i..], maxValue)) == FromDifferences(0, diffs, maxValue)
      {
        assert diffs[i..][0] == diffs[i] && diffs[i..][1..] == diffs[i + 1..];
        ReadJoinStep(done, shift, diffs[i..], maxValue);
        var v := Unser(diffs[i], maxValue);
        if v.None? {
          return None;
        }
        done := done + [v.value];
        i := i + 1;
      }
      r := Some(done);
      assert done + [] == done;
    }
  }

  lemma ReadJoinStep(done: seq<nat>, shift: nat, diffs: seq<nat>, maxValue: nat)
    requires diffs != []
    ensures Joined(done, FromDifferences(shift, diffs, maxValue))
            == if Unreadable(shift, diffs[0], maxValue) then None
               else Joined(done + [Wrapped(shift, diffs[0])],
                           FromDifferences(Wrapped(shift, diffs[0]) + 1, diffs[1..], maxValue))
  {
    var v := Wrapped(shift, diffs[0]);
    var rest := FromDifferences(v + 1, diffs[1..], maxValue);
    if !Unreadable(shift, diffs[0], maxValue) && rest.Some? {
      assert done + ([v] + rest.value) == (done + [v]) + rest.value;
    }
  }

  ghost function Joined(done: seq<nat>, rest: Option<seq<nat>>): Option<seq<nat>> {
    if rest.None? then None else Some(done + rest.value)
  }

  lemma JoinStep(done: seq<nat>, shift: nat, values: seq<nat>)
    requires values != []
    ensures Joined(done, Differences(shift, values))
            == if values[0] < shift || values[0] >= UINT64_MAX then None
               else Joined(done + [values[0] - shift], Differences(values[0] + 1, values[1..]))
  {
    var rest := Differences(values[0] + 1, values[1..]);
    if shift <= values[0] < UINT64_MAX && rest.Some? {
      var d := values[0] - shift;
      assert done + ([d] + rest.value) == (done + [d]) + rest.value;
    }
  }
}
