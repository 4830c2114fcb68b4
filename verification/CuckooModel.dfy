/**
 The cuckoo cache: a table whose elements live at one of eight hashed places,
 with a flag per slot that says the slot may be overwritten and one that says
 its element belongs to the current epoch.
 */
module CuckooModel {
  import opened Arithmetic

  type Element = nat

  datatype Params = Params(size: nat, epochSize: nat, depthLimit: nat, hash: (nat, Element) -> bv32)

  datatype State = State(table: seq<Element>, collected: seq<bool>, epochs: seq<bool>, counter: nat)

  /** Larger than every place: a 32-bit number with all bits set. */
  const INVALID: nat := 0xFFFF_FFFF

  predicate Shape(p: Params, s: State) {
    && p.size > 0 && p.epochSize > 0
    && |s.table| == |s.collected| == |s.epochs| == p.size
  }

  // --------------------------------------------------------------- operations

  /** The eight places of an element. */
  function Locs(p: Params, e: Element): (r: seq<nat>)
    requires p.size > 0
    ensures |r| == 8 && forall k | 0 <= k < 8 :: r[k] < p.size
  {
    [Loc(p, e, 0), Loc(p, e, 1), Loc(p, e, 2), Loc(p, e, 3), Loc(p, e, 4), Loc(p, e, 5), Loc(p, e, 6), Loc(p, e, 7)]
  }

  function Loc(p: Params, e: Element, k: nat): nat { FastMod(p.hash(k, e), p.size) }

  /** The first of a list of places that satisfies a test, or its length. */
  function FirstIndex(locs: seq<nat>, test: nat -> bool): (r: nat)
    ensures r <= |locs| && (r < |locs| ==> test(locs[r])) && forall k | 0 <= k < r :: !test(locs[k])
  {
    if locs == [] then 0 else if test(locs[0]) then 0 else 1 + FirstIndex(locs[1..], test)
  }

  function FindElement(p: Params, s: State, e: Element): nat
    requires Shape(p, s)
  {
    FirstIndex(Locs(p, e), (i: nat) => i < |s.table| && s.table[i] == e)
  }

  function FindOpen(p: Params, s: State, e: Element): nat
    requires Shape(p, s)
  {
    FirstIndex(Locs(p, e), (i: nat) => i < |s.collected| && s.collected[i])
  }

  /** The place after the last one used, wrapping around. */
  function NextPlace(p: Params, e: Element, last: nat): nat
    requires p.size > 0
  {
    Locs(p, e)[(1 + FirstIndex(Locs(p, e), (i: nat) => i == last)) % 8]
  }

  predicate InEpoch(s: State, i: nat)
    requires i < |s.epochs| && i < |s.collected|
  {
    s.epochs[i] && !s.collected[i]
  }

  /** How many of the first n slots hold an element of the current epoch that may not be overwritten. */
  function Count(s: State, n: nat): nat
    requires n <= |s.epochs| && n <= |s.collected|
  {
    if n == 0 then 0 else Count(s, n - 1) + if InEpoch(s, n - 1) then 1 else 0
  }

  function Max(a: nat, b: nat): nat { if a >= b then a else b }

  /** Ends the epoch: its elements become old, and those already old may be overwritten. */
  function Aged(p: Params, s: State): State
    requires Shape(p, s)
  {
    s.(collected := seq(p.size, i requires 0 <= i < p.size => s.collected[i] || !s.epochs[i]),
       epochs := seq(p.size, _ => false))
  }

  function EpochCheck(p: Params, s: State): State
    requires Shape(p, s)
  {
    if s.counter != 0 then s.(counter := s.counter - 1)
    else
      var count := Count(s, p.size);
      if count >= p.epochSize then Aged(p, s).(counter := p.epochSize)
      else s.(counter := Max(1, Max(p.epochSize / 16, p.epochSize - count)))
  }

  /** Marks a slot as one to keep, in an epoch. */
  function Keep(p: Params, s: State, i: nat, epoch: bool): State
    requires Shape(p, s) && i < p.size
  {
    s.(collected := s.collected[i := false], epochs := s.epochs[i := epoch])
  }

  function Put(p: Params, s: State, i: nat, e: Element, epoch: bool): State
    requires Shape(p, s) && i < p.size
  {
    Keep(p, s.(table := s.table[i := e]), i, epoch)
  }

  /** Puts the element in hand in a slot, whose own element and epoch come to hand. */
  function Swap(p: Params, s: State, i: nat, e: Element, epoch: bool): State
    requires Shape(p, s) && i < p.size
  {
    s.(table := s.table[i := e], epochs := s.epochs[i := epoch])
  }

  /** Finds a slot for the element in hand, displacing at most `depth` others. */
  function Displace(p: Params, s: State, e: Element, epoch: bool, last: nat, depth: nat): State
    requires Shape(p, s)
    decreases depth
  {
    if depth == 0 then s else
    var open := FindOpen(p, s, e);
    if open < 8 then Put(p, s, Locs(p, e)[open], e, epoch)
    else
      var i := NextPlace(p, e, last);
      Displace(p, Swap(p, s, i, e, epoch), s.table[i], s.epochs[i], i, depth - 1)
  }

  function InsertChecked(p: Params, s: State, e: Element): State
    requires Shape(p, s)
  {
    var found := FindElement(p, s, e);
    if found < 8 then Keep(p, s, Locs(p, e)[found], true)
    else Displace(p, s, e, true, INVALID, p.depthLimit)
  }

  function Insert(p: Params, s: State, e: Element): State
    requires Shape(p, s)
  {
    InsertChecked(p, EpochCheck(p, s), e)
  }

  predicate Contains(p: Params, s: State, e: Element)
    requires Shape(p, s)
  {
    FindElement(p, s, e) < 8
  }

  /** A lookup that marks what it finds as one that may be overwritten. */
  function Erase(p: Params, s: State, e: Element): State
    requires Shape(p, s)
  {
    var found := FindElement(p, s, e);
    if found < 8 then s.(collected := s.collected[Locs(p, e)[found] := true]) else s
  }

  function Setup(p: Params, empty: Element): State {
    State(seq(p.size, _ => empty), seq(p.size, _ => true), seq(p.size, _ => false), p.epochSize)
  }

  // ------------------------------------------------------------------- places

  /** Slot i is one of the eight places of its element. */
  ghost predicate Home(p: Params, s: State, i: nat)
    requires Shape(p, s) && i < p.size
  {
    i in Locs(p, s.table[i])
  }

  /** Every slot to keep holds an element at one of its places, and so does every slot that was ever written. */
  ghost predicate Homes(p: Params, s: State, empty: Element)
    requires Shape(p, s)
  {
    forall i | 0 <= i < p.size :: Home(p, s, i) || (s.collected[i] && s.table[i] == empty)
  }

  /** The elements a lookup finds. */
  ghost predicate Stored(p: Params, s: State, e: Element)
    requires Shape(p, s)
  {
    exists k :: 0 <= k < 8 && s.table[Locs(p, e)[k]] == e
  }

  lemma ContainsIsStored(p: Params, s: State, e: Element)
    requires Shape(p, s)
    ensures Contains(p, s, e) <==> Stored(p, s, e)
  {
    hide Locs;
    var found := FindElement(p, s, e);
    if found < 8 {
      assert s.table[Locs(p, e)[found]] == e;
    }
  }

  lemma HomeIsStored(p: Params, s: State, i: nat)
    requires Shape(p, s) && i < p.size && Home(p, s, i)
    ensures Stored(p, s, s.table[i])
  {
    hide Locs;
    var k :| 0 <= k < 8 && Locs(p, s.table[i])[k] == i;
  }

  /** Overwriting slot i of the table stores the new element and can lose only the old one. */
  lemma Overwrite(p: Params, s: State, t: State, i: nat, e: Element, k: nat)
    requires Shape(p, s) && Shape(p, t) && i < p.size && k < 8 && Locs(p, e)[k] == i && t.table == s.table[i := e]
    ensures Stored(p, t, e)
    ensures forall x | x != e && x != s.table[i] :: Stored(p, t, x) <==> Stored(p, s, x)
    ensures Stored(p, t, s.table[i]) ==> s.table[i] == e || Stored(p, s, s.table[i])
  {
    hide Locs;
    assert t.table[Locs(p, e)[k]] == e;
  }

  /** Lost at most one: everything stored before, and the new element, is stored after, except perhaps one element. */
  ghost predicate LosesAtMostOne(p: Params, s: State, t: State, e: Element)
    requires Shape(p, s) && Shape(p, t)
  {
    && (forall x | Stored(p, t, x) :: x == e || Stored(p, s, x))
    && exists lost: Element :: AllBut(p, s, t, e, lost)
  }

  ghost predicate AllBut(p: Params, s: State, t: State, e: Element, lost: Element)
    requires Shape(p, s) && Shape(p, t)
  {
    forall x | x != lost && (x == e || Stored(p, s, x)) :: Stored(p, t, x)
  }

  lemma PutHomes(p: Params, s: State, i: nat, e: Element, epoch: bool, k: nat, empty: Element)
    requires Shape(p, s) && Homes(p, s, empty) && k < 8 && Locs(p, e)[k] == i
    ensures Homes(p, Put(p, s, i, e, epoch), empty)
  {
    hide Locs;
    var t := Put(p, s, i, e, epoch);
    forall j | 0 <= j < p.size
      ensures Home(p, t, j) || (t.collected[j] && t.table[j] == empty)
    {
      assert j != i ==> Home(p, s, j) == Home(p, t, j);
      assert Locs(p, e)[k] in Locs(p, e);
    }
  }

  lemma SwapHomes(p: Params, s: State, i: nat, e: Element, epoch: bool, k: nat, empty: Element)
    requires Shape(p, s) && Homes(p, s, empty) && k < 8 && Locs(p, e)[k] == i
    ensures Homes(p, Swap(p, s, i, e, epoch), empty)
  {
    hide Locs;
    var t := Swap(p, s, i, e, epoch);
    forall j | 0 <= j < p.size
      ensures Home(p, t, j) || (t.collected[j] && t.table[j] == empty)
    {
      assert j != i ==> Home(p, s, j) == Home(p, t, j);
      assert Locs(p, e)[k] in Locs(p, e);
    }
  }

  /** With no open slot, the place taken next is one to keep, so its element is at home there. */
  lemma NextIsKept(p: Params, s: State, e: Element, last: nat)
    requires Shape(p, s) && FindOpen(p, s, e) == 8
    ensures var i := NextPlace(p, e, last);
            && i < p.size && !s.collected[i]
            && exists k :: 0 <= k < 8 && Locs(p, e)[k] == i
  {
    hide Locs;
    var k := (1 + FirstIndex(Locs(p, e), (i: nat) => i == last)) % 8;
    assert Locs(p, e)[k] == NextPlace(p, e, last);
  }

  lemma {:induction false} DisplaceHomes(p: Params, s: State, e: Element, epoch: bool, last: nat, depth: nat,
                                         empty: Element)
    requires Shape(p, s) && Homes(p, s, empty)
    ensures Shape(p, Displace(p, s, e, epoch, last, depth)) && Homes(p, Displace(p, s, e, epoch, last, depth), empty)
    decreases depth
  {
    hide Locs, Homes, Put, Swap, FindOpen, NextPlace;
    if depth > 0 {
      var open := FindOpen(p, s, e);
      FindOpenFacts(p, s, e);
      if open < 8 {
        PutHomes(p, s, Locs(p, e)[open], e, epoch, open, empty);
        PutShape(p, s, Locs(p, e)[open], e, epoch);
      } else {
        NextIsKept(p, s, e, last);
        var i := NextPlace(p, e, last);
        var k :| 0 <= k < 8 && Locs(p, e)[k] == i;
        SwapHomes(p, s, i, e, epoch, k, empty);
        PutShape(p, s, i, e, epoch);
        DisplaceHomes(p, Swap(p, s, i, e, epoch), s.table[i], s.epochs[i], i, depth - 1, empty);
      }
    }
  }

  lemma PutShape(p: Params, s: State, i: nat, e: Element, epoch: bool)
    requires Shape(p, s) && i < p.size
    ensures Shape(p, Put(p, s, i, e, epoch)) && Shape(p, Swap(p, s, i, e, epoch))
  {
  }

  lemma FindOpenFacts(p: Params, s: State, e: Element)
    requires Shape(p, s)
    ensures FindOpen(p, s, e) <= 8
    ensures FindOpen(p, s, e) < 8 ==> s.collected[Locs(p, e)[FindOpen(p, s, e)]]
  {
    hide Locs;
  }

  /** What is stored, together with the element in hand. */
  ghost predicate StoredOrHand(p: Params, s: State, hand: Element, x: Element)
    requires Shape(p, s)
  {
    x == hand || Stored(p, s, x)
  }

  /** A swap neither gains nor loses an element, counting the one in hand. */
  lemma SwapStored(p: Params, s: State, i: nat, e: Element, epoch: bool, k: nat, empty: Element)
    requires Shape(p, s) && Homes(p, s, empty) && k < 8 && Locs(p, e)[k] == i && !s.collected[i]
    ensures var t := Swap(p, s, i, e, epoch);
            Shape(p, t) && forall x :: StoredOrHand(p, t, s.table[i], x) <==> StoredOrHand(p, s, e, x)
  {
    hide Locs, Stored;
    var t := Swap(p, s, i, e, epoch);
    assert Home(p, s, i);
    HomeIsStored(p, s, i);
    Overwrite(p, s, t, i, e, k);
  }

  /** Finding a slot loses at most one element: the one overwritten, or the one still in hand at the end. */
  lemma {:induction false} DisplaceStored(p: Params, s: State, e: Element, epoch: bool, last: nat, depth: nat,
                                          empty: Element)
    requires Shape(p, s) && Homes(p, s, empty)
    ensures var t := Displace(p, s, e, epoch, last, depth); Shape(p, t) && LosesAtMostOne(p, s, t, e)
    decreases depth
  {
    hide Locs, Homes, Put, Swap, FindOpen, NextPlace, Stored, LosesAtMostOne;
    if depth == 0 {
      LosesHand(p, s, s, e, e);
    } else {
      var open := FindOpen(p, s, e);
      FindOpenFacts(p, s, e);
      if open < 8 {
        PutShape(p, s, Locs(p, e)[open], e, epoch);
        PutStored(p, s, Locs(p, e)[open], e, epoch, open);
      } else {
        NextIsKept(p, s, e, last);
        var i := NextPlace(p, e, last);
        var k :| 0 <= k < 8 && Locs(p, e)[k] == i;
        SwapHomes(p, s, i, e, epoch, k, empty);
        SwapStored(p, s, i, e, epoch, k, empty);
        var t := Swap(p, s, i, e, epoch);
        DisplaceStored(p, t, s.table[i], s.epochs[i], i, depth - 1, empty);
        LosesSame(p, s, e, t, s.table[i], Displace(p, t, s.table[i], s.epochs[i], i, depth - 1));
      }
    }
  }

  lemma LosesHand(p: Params, s: State, t: State, e: Element, lost: Element)
    requires Shape(p, s) && Shape(p, t) && (forall x | Stored(p, t, x) :: x == e || Stored(p, s, x))
             && AllBut(p, s, t, e, lost)
    ensures LosesAtMostOne(p, s, t, e)
  {
  }

  lemma PutStored(p: Params, s: State, i: nat, e: Element, epoch: bool, k: nat)
    requires Shape(p, s) && k < 8 && Locs(p, e)[k] == i
    ensures var t := Put(p, s, i, e, epoch); Shape(p, t) && LosesAtMostOne(p, s, t, e)
  {
    hide Locs, Stored, LosesAtMostOne;
    var t := Put(p, s, i, e, epoch);
    Overwrite(p, s, t, i, e, k);
    LosesHand(p, s, t, e, s.table[i]);
  }

  lemma LosesSame(p: Params, s: State, e: Element, t: State, hand: Element, u: State)
    requires Shape(p, s) && Shape(p, t) && Shape(p, u) && LosesAtMostOne(p, t, u, hand)
    requires forall x :: StoredOrHand(p, t, hand, x) <==> StoredOrHand(p, s, e, x)
    ensures LosesAtMostOne(p, s, u, e)
  {
    hide Stored;
    var lost: Element :| AllBut(p, t, u, hand, lost);
    forall x | Stored(p, u, x)
      ensures x == e || Stored(p, s, x)
    {
      assert StoredOrHand(p, t, hand, x);
    }
    forall x | x != lost && (x == e || Stored(p, s, x))
      ensures Stored(p, u, x)
    {
      assert StoredOrHand(p, s, e, x);
    }
    assert AllBut(p, s, u, e, lost);
  }

  // ------------------------------------------------------------------- epochs

  /** Changing the flags of one slot changes the count by that slot. */
  lemma {:induction false} CountUpdate(s: State, t: State, i: nat, n: nat)
    requires |s.epochs| == |t.epochs| == |s.collected| == |t.collected| && i < n <= |s.epochs|
    requires forall j | 0 <= j < |s.epochs| && j != i :: InEpoch(s, j) == InEpoch(t, j)
    ensures Count(t, n) == Count(s, n) - (if InEpoch(s, i) then 1 else 0) + (if InEpoch(t, i) then 1 else 0)
    decreases n
  {
    if i == n - 1 {
      CountSame(s, t, n - 1);
    } else {
      CountUpdate(s, t, i, n - 1);
    }
  }

  lemma {:induction false} CountSame(s: State, t: State, n: nat)
    requires n <= |s.epochs| == |t.epochs| == |s.collected| == |t.collected|
    requires forall j | 0 <= j < n :: InEpoch(s, j) == InEpoch(t, j)
    ensures Count(t, n) == Count(s, n)
  {
    if n > 0 {
      CountSame(s, t, n - 1);
    }
  }

  lemma {:induction false} CountNone(s: State, n: nat)
    requires n <= |s.epochs| && n <= |s.collected| && forall j | 0 <= j < n :: !InEpoch(s, j)
    ensures Count(s, n) == 0
  {
    if n > 0 {
      CountNone(s, n - 1);
    }
  }

  /** The elements of the current epoch, and the one in hand if it belongs to it, do not become more. */
  lemma {:induction false} DisplaceCount(p: Params, s: State, e: Element, epoch: bool, last: nat, depth: nat)
    requires Shape(p, s)
    ensures var t := Displace(p, s, e, epoch, last, depth);
            Shape(p, t) && t.counter == s.counter && Count(t, p.size) <= Count(s, p.size) + if epoch then 1 else 0
    decreases depth
  {
    hide Locs, FindOpen, NextPlace, Count;
    if depth > 0 {
      var open := FindOpen(p, s, e);
      FindOpenFacts(p, s, e);
      if open < 8 {
        var i := Locs(p, e)[open];
        CountUpdate(s, Put(p, s, i, e, epoch), i, p.size);
      } else {
        NextIsKept(p, s, e, last);
        var i := NextPlace(p, e, last);
        var t := Swap(p, s, i, e, epoch);
        CountUpdate(s, t, i, p.size);
        DisplaceCount(p, t, s.table[i], s.epochs[i], i, depth - 1);
      }
    }
  }

  /** The largest number of elements an epoch may hold before a scan ends it. */
  function Bound(p: Params): nat { p.epochSize + Max(1, p.epochSize / 16) }

  ghost predicate EpochOk(p: Params, s: State)
    requires Shape(p, s)
  {
    Count(s, p.size) + s.counter <= Bound(p)
  }

  /** After the check one more element of the current epoch still leaves the bound. */
  lemma EpochCheckRoom(p: Params, s: State)
    requires Shape(p, s) && EpochOk(p, s)
    ensures var t := EpochCheck(p, s);
            && Shape(p, t) && t.table == s.table
            && Count(t, p.size) + 1 + t.counter <= Bound(p)
            && forall i | 0 <= i < p.size && s.collected[i] :: t.collected[i]
  {
    hide Count;
    var t := EpochCheck(p, s);
    if s.counter != 0 || Count(s, p.size) < p.epochSize {
      CountSame(s, t, p.size);
    } else {
      CountNone(t, p.size);
    }
  }

  // ----------------------------------------------------------------- invariant

  ghost predicate Inv(p: Params, s: State, empty: Element) {
    Shape(p, s) && Homes(p, s, empty) && EpochOk(p, s)
  }

  lemma SetupInv(p: Params, empty: Element)
    requires p.size > 0 && p.epochSize > 0
    ensures Inv(p, Setup(p, empty), empty)
  {
    CountNone(Setup(p, empty), p.size);
  }

  lemma KeepKeeps(p: Params, s: State, i: nat, e: Element, k: nat, empty: Element)
    requires Shape(p, s) && Homes(p, s, empty) && k < 8 && Locs(p, e)[k] == i && s.table[i] == e
    ensures var t := Keep(p, s, i, true);
            Shape(p, t) && Homes(p, t, empty) && Count(t, p.size) <= Count(s, p.size) + 1 && t.counter == s.counter
  {
    hide Locs;
    var t := Keep(p, s, i, true);
    CountUpdate(s, t, i, p.size);
    forall j | 0 <= j < p.size
      ensures Home(p, t, j) || (t.collected[j] && t.table[j] == empty)
    {
      assert Home(p, s, j) == Home(p, t, j);
      assert Locs(p, e)[k] in Locs(p, e);
    }
  }

  lemma FoundFacts(p: Params, s: State, e: Element)
    requires Shape(p, s)
    ensures FindElement(p, s, e) <= 8
    ensures FindElement(p, s, e) < 8 ==> s.table[Locs(p, e)[FindElement(p, s, e)]] == e
  {
    hide Locs;
  }

  /** An insert keeps the invariant, adds the element, and loses at most one. */
  lemma InsertKeeps(p: Params, s: State, e: Element, empty: Element)
    requires Inv(p, s, empty)
    ensures Inv(p, Insert(p, s, e), empty) && LosesAtMostOne(p, s, Insert(p, s, e), e)
  {
    hide Locs, FindElement, Displace, Count, LosesAtMostOne, Keep, EpochCheck;
    EpochCheckRoom(p, s);
    var c := EpochCheck(p, s);
    CheckedHomes(p, s, c, empty);
    var found := FindElement(p, c, e);
    FoundFacts(p, c, e);
    if found < 8 {
      var i := Locs(p, e)[found];
      KeepKeeps(p, c, i, e, found, empty);
      KeepStored(p, s, c, e, i, found);
    } else {
      DisplaceHomes(p, c, e, true, INVALID, p.depthLimit, empty);
      DisplaceCount(p, c, e, true, INVALID, p.depthLimit);
      DisplaceStored(p, c, e, true, INVALID, p.depthLimit, empty);
      SameTable(p, s, c, e, Displace(p, c, e, true, INVALID, p.depthLimit));
    }
  }

  lemma CheckedHomes(p: Params, s: State, c: State, empty: Element)
    requires Shape(p, s) && Shape(p, c) && Homes(p, s, empty) && c.table == s.table
    requires forall i | 0 <= i < p.size && s.collected[i] :: c.collected[i]
    ensures Homes(p, c, empty)
  {
    hide Locs;
    forall i | 0 <= i < p.size
      ensures Home(p, c, i) || (c.collected[i] && c.table[i] == empty)
    {
      assert Home(p, c, i) == Home(p, s, i);
    }
  }

  lemma KeepStored(p: Params, s: State, c: State, e: Element, i: nat, k: nat)
    requires Shape(p, s) && Shape(p, c) && c.table == s.table && k < 8 && Locs(p, e)[k] == i && c.table[i] == e
    ensures var t := Keep(p, c, i, true); Shape(p, t) && LosesAtMostOne(p, s, t, e)
  {
    hide Locs;
    var t := Keep(p, c, i, true);
    assert t.table[Locs(p, e)[k]] == e;
    assert AllBut(p, s, t, e, e);
  }

  lemma SameTable(p: Params, s: State, c: State, e: Element, t: State)
    requires Shape(p, s) && Shape(p, c) && Shape(p, t) && c.table == s.table && LosesAtMostOne(p, c, t, e)
    ensures LosesAtMostOne(p, s, t, e)
  {
    hide Locs;
    var lost: Element :| AllBut(p, c, t, e, lost);
    assert AllBut(p, s, t, e, lost);
  }

  /** A lookup that marks its find changes no stored element, and finds the same again. */
  lemma EraseKeeps(p: Params, s: State, e: Element, empty: Element)
    requires Inv(p, s, empty)
    ensures Inv(p, Erase(p, s, e), empty)
    ensures forall x :: Contains(p, Erase(p, s, e), x) <==> Contains(p, s, x)
  {
    hide Locs, FindElement, Count;
    var found := FindElement(p, s, e);
    var t := Erase(p, s, e);
    if found < 8 {
      CountUpdate(s, t, Locs(p, e)[found], p.size);
      CheckedHomes(p, s, t, empty);
    }
    forall x
      ensures Contains(p, t, x) <==> Contains(p, s, x)
    {
      ContainsIsStored(p, s, x);
      ContainsIsStored(p, t, x);
    }
  }

  /** Every slot to keep still holds its element. */
  ghost predicate KeepsAll(p: Params, s: State, t: State)
    requires Shape(p, s) && Shape(p, t)
  {
    forall i | 0 <= i < p.size && !s.collected[i] :: t.table[i] == s.table[i] && !t.collected[i]
  }

  /** An element already there, or with a place that may be overwritten, is stored and kept, and nothing to keep is
      lost. */
  lemma InsertStores(p: Params, s: State, e: Element)
    requires Shape(p, s) && p.depthLimit > 0
    requires var c := EpochCheck(p, s); Shape(p, c) && (FindElement(p, c, e) < 8 || FindOpen(p, c, e) < 8)
    ensures var c, t := EpochCheck(p, s), Insert(p, s, e);
            && Shape(p, t) && KeepsAll(p, c, t)
            && exists k :: 0 <= k < 8 && t.table[Locs(p, e)[k]] == e && !t.collected[Locs(p, e)[k]]
                && t.epochs[Locs(p, e)[k]]
  {
    hide Locs, FindElement, FindOpen, EpochCheck;
    var c, t := EpochCheck(p, s), Insert(p, s, e);
    FoundFacts(p, c, e);
    FindOpenFacts(p, c, e);
    var k := if FindElement(p, c, e) < 8 then FindElement(p, c, e) else FindOpen(p, c, e);
    assert t.table[Locs(p, e)[k]] == e && !t.collected[Locs(p, e)[k]] && t.epochs[Locs(p, e)[k]];
  }

  /** Taken from a fresh search, the first place to displace is the second of the eight. */
  lemma FirstDisplaced(p: Params, e: Element)
    requires 0 < p.size <= INVALID
    ensures NextPlace(p, e, INVALID) == Locs(p, e)[1]
  {
    hide Locs;
  }

  // --------------------------------------------------------------------- runs

  datatype Operation = DoInsert(element: Element) | DoContains(element: Element, erase: bool)

  function Apply(p: Params, s: State, op: Operation): State
    requires Shape(p, s)
  {
    match op
    case DoInsert(e) => Insert(p, s, e)
    case DoContains(e, erase) => if erase then Erase(p, s, e) else s
  }

  /** All states of a run. */
  ghost predicate IsRun(p: Params, states: seq<State>, ops: seq<Operation>) {
    && |states| == |ops| + 1
    && forall i | 0 <= i < |ops| :: Shape(p, states[i]) && states[i + 1] == Apply(p, states[i], ops[i])
  }

  /** In every state of every run, elements are at home and the current epoch is within its bound. */
  lemma {:induction false} RunsKeep(p: Params, states: seq<State>, ops: seq<Operation>, empty: Element, n: nat)
    requires p.size > 0 && p.epochSize > 0 && IsRun(p, states, ops) && states[0] == Setup(p, empty) && n < |states|
    ensures Inv(p, states[n], empty) && Count(states[n], p.size) <= Bound(p)
  {
    hide Insert, Erase, Homes, Count;
    if n == 0 {
      SetupInv(p, empty);
    } else {
      RunsKeep(p, states, ops, empty, n - 1);
      match ops[n - 1] {
        case DoInsert(e) => InsertKeeps(p, states[n - 1], e, empty);
        case DoContains(e, erase) => EraseKeeps(p, states[n - 1], e, empty);
      }
    }
  }
}
