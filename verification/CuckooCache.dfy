/**
 The cuckoo cache as an object: an array of elements, garbage-collection flags
 packed eight to a byte, and epoch flags, all updated in place.
 */
module CuckooCache {
  import BitPacking
  import opened CuckooModel

  /** Flags packed in bytes, all set at first. */
  class BitPackedFlags {
    const mem: array<bv8>

    ghost function Bits(): (r: seq<bool>)
      reads mem
      ensures |r| == 8 * mem.Length
    {
      BitPacking.Unpack(mem[..])
    }

    constructor (size: nat)
      ensures fresh(mem) && mem.Length == (size + 7) / 8
      ensures forall s | 0 <= s < 8 * mem.Length :: Bits()[s]
    {
      mem := new bv8[(size + 7) / 8];
      new;
      var i := 0;
      while i < mem.Length
        invariant 0 <= i <= mem.Length && forall j | 0 <= j < i :: mem[j] == 0xFF
        modifies mem
      {
        mem[i] := 0xFF;
        i := i + 1;
      }
      forall s | 0 <= s < 8 * mem.Length
        ensures Bits()[s]
      {
        AllSet(s % 8);
      }
    }

    static lemma AllSet(k: nat)
      requires k < 8
      ensures BitPacking.IsSet(0xFF, k)
    {
      BitPacking.BitTable(k);
    }

    method Set(s: nat)
      requires s < 8 * mem.Length
      modifies mem
      ensures Bits() == old(Bits())[s := true]
    {
      hide BitPacking.Bit, BitPacking.IsSet;
      ghost var was := mem[s / 8];
      mem[s / 8] := mem[s / 8] | BitPacking.Bit(s % 8);
      forall i | 0 <= i < 8 * mem.Length
        ensures Bits()[i] == (i == s || old(Bits()[i]))
      {
        BitPacking.SetBit(was, s % 8, i % 8);
      }
    }

    method Unset(s: nat)
      requires s < 8 * mem.Length
      modifies mem
      ensures Bits() == old(Bits())[s := false]
    {
      hide BitPacking.Bit, BitPacking.IsSet;
      ghost var was := mem[s / 8];
      mem[s / 8] := mem[s / 8] & !BitPacking.Bit(s % 8);
      forall i | 0 <= i < 8 * mem.Length
        ensures Bits()[i] == (i != s && old(Bits()[i]))
      {
        BitPacking.ClearBit(was, s % 8, i % 8);
      }
    }

    method IsSet(s: nat) returns (r: bool)
      requires s < 8 * mem.Length
      ensures r == Bits()[s]
    {
      r := mem[s / 8] & BitPacking.Bit(s % 8) != 0;
    }
  }

  class Cache {
    const params: Params
    const table: array<Element>
    const flags: BitPackedFlags
    const epochs: array<bool>
    var counter: nat

    ghost predicate Valid()
      reads this, flags
    {
      && params.size > 0 && params.epochSize > 0
      && table.Length == epochs.Length == params.size <= 8 * flags.mem.Length
      && {flags.mem as object} !! {table as object, epochs as object}
    }

    ghost function Collected(): (r: seq<bool>)
      requires Valid()
      reads this, flags, flags.mem
    {
      flags.Bits()[..params.size]
    }

    ghost function Abs(): (s: State)
      requires Valid()
      reads this, table, flags, flags.mem, epochs
      ensures Shape(params, s)
    {
      State(table[..], Collected(), epochs[..], counter)
    }

    /** Room for at least two elements, and epochs of 45 percent of it. */
    constructor (newSize: nat, depthLimit: nat, hash: (nat, Element) -> bv32, empty: Element)
      ensures Valid() && fresh(table) && fresh(flags) && fresh(flags.mem) && fresh(epochs)
      ensures params == Params(Max(2, newSize), Max(1, 45 * Max(2, newSize) / 100), depthLimit, hash)
      ensures Abs() == Setup(params, empty) && Inv(params, Abs(), empty)
    {
      var size := Max(2, newSize);
      params := Params(size, Max(1, 45 * size / 100), depthLimit, hash);
      table := new Element[size](_ => empty);
      epochs := new bool[size](_ => false);
      flags := new BitPackedFlags(size);
      counter := Max(1, 45 * size / 100);
      new;
      SetupInv(params, empty);
    }

    /** Counts the elements of the current epoch that may not be overwritten. */
    method CountEpoch() returns (count: nat)
      requires Valid()
      ensures count == Count(Abs(), params.size)
    {
      count := 0;
      var i := 0;
      while i < params.size
        invariant 0 <= i <= params.size && count == Count(Abs(), i)
      {
        var collected := flags.IsSet(i);
        if epochs[i] && !collected {
          count := count + 1;
        }
        i := i + 1;
      }
    }

    /** Ends the epoch. */
    method Age()
      requires Valid()
      modifies epochs, flags.mem
      ensures Abs() == Aged(params, old(Abs()))
    {
      ghost var was, wasEpochs := Collected(), epochs[..];
      var i := 0;
      while i < params.size
        invariant 0 <= i <= params.size
        invariant forall j | 0 <= j < params.size :: epochs[j] == (i <= j && wasEpochs[j])
        invariant forall j | 0 <= j < params.size :: Collected()[j] == (was[j] || (j < i && !wasEpochs[j]))
      {
        if epochs[i] {
          epochs[i] := false;
        } else {
          flags.Set(i);
        }
        i := i + 1;
      }
    }

    method CheckEpoch()
      requires Valid()
      modifies this, epochs, flags.mem
      ensures Valid() && Abs() == EpochCheck(params, old(Abs()))
    {
      hide Count, Aged;
      if counter != 0 {
        counter := counter - 1;
        return;
      }
      var count := CountEpoch();
      if count >= params.epochSize {
        Age();
        counter := params.epochSize;
      } else {
        counter := Max(1, Max(params.epochSize / 16, params.epochSize - count));
      }
    }

    /** The first of the eight places that holds an element, or eight. */
    method Find(e: Element) returns (k: nat)
      requires Valid()
      ensures k == FindElement(params, Abs(), e)
    {
      hide Locs;
      var locs := Locs(params, e);
      k := 0;
      while k < 8
        invariant 0 <= k <= 8 && forall j | 0 <= j < k :: table[locs[j]] != e
      {
        if table[locs[k]] == e {
          break;
        }
        k := k + 1;
      }
      ghost var t := table[..];
      FirstIs(locs, (i: nat) => i < |t| && t[i] == e, k);
    }

    /** The first of the eight places that may be overwritten, or eight. */
    method FindFree(e: Element) returns (k: nat)
      requires Valid()
      ensures k == FindOpen(params, Abs(), e)
    {
      hide Locs;
      var locs := Locs(params, e);
      k := 0;
      while k < 8
        invariant 0 <= k <= 8 && forall j | 0 <= j < k :: !Collected()[locs[j]]
      {
        var open := flags.IsSet(locs[k]);
        if open {
          break;
        }
        k := k + 1;
      }
      ghost var c := Collected();
      FirstIs(locs, (i: nat) => i < |c| && c[i], k);
    }

    /** The position of a place in the list of eight, or eight. */
    method FindPlace(e: Element, last: nat) returns (k: nat)
      requires Valid()
      ensures k == FirstIndex(Locs(params, e), (i: nat) => i == last)
    {
      hide Locs;
      var locs := Locs(params, e);
      k := 0;
      while k < 8
        invariant 0 <= k <= 8 && forall j | 0 <= j < k :: locs[j] != last
      {
        if locs[k] == last {
          break;
        }
        k := k + 1;
      }
      FirstIs(locs, (i: nat) => i == last, k);
    }

    method KeepAt(i: nat, epoch: bool)
      requires Valid() && i < params.size
      modifies epochs, flags.mem
      ensures Abs() == Keep(params, old(Abs()), i, epoch)
    {
      flags.Unset(i);
      epochs[i] := epoch;
      assert Collected() == old(Collected())[i := false];
    }

    /** Inserts an element, displacing others from place to place until one finds a free slot or the depth runs out. */
    method InsertElement(element: Element)
      requires Valid()
      modifies this, table, epochs, flags.mem
      ensures Valid() && Abs() == Insert(params, old(Abs()), element)
    {
      hide Locs, EpochCheck, Keep, FindElement, Displace, Collected;
      CheckEpoch();
      var found := Find(element);
      FoundFacts(params, Abs(), element);
      if found < 8 {
        KeepAt(Locs(params, element)[found], true);
        return;
      }
      PlaceElement(element);
    }

    method PlaceElement(element: Element)
      requires Valid()
      modifies table, epochs, flags.mem
      ensures Abs() == Displace(params, old(Abs()), element, true, INVALID, params.depthLimit)
    {
      hide Locs, Keep, FindOpen, Collected;
      ghost var start := Abs();
      var e, epoch, last, depth := element, true, INVALID, 0;
      while depth < params.depthLimit
        invariant 0 <= depth <= params.depthLimit
        invariant Displace(params, Abs(), e, epoch, last, params.depthLimit - depth)
               == Displace(params, start, element, true, INVALID, params.depthLimit)
      {
        var open := FindFree(e);
        FindOpenFacts(params, Abs(), e);
        if open < 8 {
          var i := Locs(params, e)[open];
          table[i] := e;
          KeepAt(i, epoch);
          return;
        }
        var k := FindPlace(e, last);
        last := Locs(params, e)[(1 + k) % 8];
        e, epoch := SwapAt(last, e, epoch);
        depth := depth + 1;
      }
    }

    method SwapAt(i: nat, e: Element, epoch: bool) returns (e': Element, epoch': bool)
      requires Valid() && i < params.size
      modifies table, epochs
      ensures e' == old(table[i]) && epoch' == old(epochs[i])
      ensures Abs() == Swap(params, old(Abs()), i, e, epoch)
    {
      e', epoch' := table[i], epochs[i];
      table[i], epochs[i] := e, epoch;
      assert Collected() == old(Collected());
    }

    /** Looks an element up, and marks it as one that may be overwritten if asked to. */
    method ContainsElement(e: Element, erase: bool) returns (r: bool)
      requires Valid()
      modifies flags.mem
      ensures r == Contains(params, old(Abs()), e)
      ensures Abs() == if erase then Erase(params, old(Abs()), e) else old(Abs())
    {
      hide Locs;
      var found := Find(e);
      r := found < 8;
      FoundFacts(params, Abs(), e);
      if r && erase {
        flags.Set(Locs(params, e)[found]);
        assert Collected() == old(Collected())[Locs(params, e)[found] := true];
      }
    }
  }

  /** The first index of a test is determined by where it fails before and holds. */
  lemma {:induction false} FirstIs(locs: seq<nat>, test: nat -> bool, k: nat)
    requires k <= |locs| && (k < |locs| ==> test(locs[k])) && forall j | 0 <= j < k :: !test(locs[j])
    ensures FirstIndex(locs, test) == k
  {
    if k > 0 {
      FirstIs(locs[1..], test, k - 1);
    }
  }
}
