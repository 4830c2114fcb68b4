/**
 The rolling bloom filter.  Every position holds a two-bit tag, spread over two
 words: zero for unset, otherwise the generation that set it last.  The hash
 is an arbitrary function of the hash number, the tweak and the key.
 */
module RollingBloom {
  import opened Arithmetic

  type Key = seq<bv8>
  type Hash = (nat, nat, Key) -> bv32

  // -------------------------------------------------------------------- words

  predicate Bit(w: bv64, b: bv64)
    requires b < 64
  {
    (w >> b) & 1 == 1
  }

  function Not(w: bv64): bv64 { !w }

  function Join(x: bv64, y: bv64): bv64 { x | y }

  function Masked(w: bv64, mask: bv64): bv64 { w & mask }

  function At(v: bv64, b: bv64): bv64
    requires b < 64
  {
    v << b
  }

  /** A word with one bit replaced. */
  function WithBit(w: bv64, b: bv64, v: bv64): bv64
    requires b < 64
  {
    Join(Masked(w, Not(At(1, b))), At(v, b))
  }

  lemma NotBit(w: bv64, b: bv64)
    requires b < 64
    ensures Bit(Not(w), b) == !Bit(w, b)
  {
  }

  lemma MaskedBit(w: bv64, mask: bv64, b: bv64)
    requires b < 64
    ensures Bit(Masked(w, mask), b) == (Bit(w, b) && Bit(mask, b))
  {
    hide Bit, Masked;
    if Bit(Masked(w, mask), b) {
      MaskedOnlyIf(w, mask, b);
    } else if Bit(w, b) && Bit(mask, b) {
      MaskedIf(w, mask, b);
    }
  }

  lemma MaskedOnlyIf(w: bv64, mask: bv64, b: bv64)
    requires b < 64 && Bit(Masked(w, mask), b)
    ensures Bit(w, b) && Bit(mask, b)
  {
  }

  lemma MaskedIf(w: bv64, mask: bv64, b: bv64)
    requires b < 64 && Bit(w, b) && Bit(mask, b)
    ensures Bit(Masked(w, mask), b)
  {
  }

  lemma JoinBit(x: bv64, y: bv64, b: bv64)
    requires b < 64
    ensures Bit(Join(x, y), b) == (Bit(x, b) || Bit(y, b))
  {
    hide Bit, Join;
    if Bit(Join(x, y), b) {
      JoinOnlyIf(x, y, b);
    }
    if Bit(x, b) {
      JoinIf(x, y, b);
    }
    if Bit(y, b) {
      JoinIf(y, x, b);
    }
  }

  lemma JoinOnlyIf(x: bv64, y: bv64, b: bv64)
    requires b < 64 && Bit(Join(x, y), b)
    ensures Bit(x, b) || Bit(y, b)
  {
  }

  lemma JoinIf(x: bv64, y: bv64, b: bv64)
    requires b < 64 && Bit(x, b)
    ensures Bit(Join(x, y), b) && Join(x, y) == Join(y, x)
  {
  }

  lemma AtBit(v: bv64, b: bv64, c: bv64)
    requires b < 64 && c < 64 && v <= 1
    ensures Bit(At(v, b), c) == (v == 1 && b == c)
  {
  }

  lemma WithBitAt(w: bv64, b: bv64, v: bv64, c: bv64)
    requires b < 64 && c < 64 && v <= 1
    ensures Bit(WithBit(w, b, v), c) == if c == b then v == 1 else Bit(w, c)
  {
    hide Bit, Not, Join, Masked, At;
    AtBit(v, b, c);
    AtBit(1, b, c);
    NotBit(At(1, b), c);
    MaskedBit(w, Not(At(1, b)), c);
    JoinBit(Masked(w, Not(At(1, b))), At(v, b), c);
  }

  lemma EitherBit(x: bv64, y: bv64, b: bv64)
    requires b < 64
    ensures ((x | y) >> b) & 1 == 1 <==> Bit(x, b) || Bit(y, b)
  {
  }

  /** The two bits of a generation, and the word that repeats such a bit. */
  function LowBit(generation: nat): (r: bv64)
    ensures r <= 1
  {
    if generation % 2 == 1 then 1 else 0
  }

  function HighBit(generation: nat): (r: bv64)
    ensures r <= 1
  {
    if generation / 2 % 2 == 1 then 1 else 0
  }

  /** A word with every bit flipped, or none. */
  function Flip(w: bv64, v: bv64): bv64 { w ^ (0 - v) }

  /** Keeps the positions whose two bits are not both those of the generation to wipe. */
  function KeepMask(p1: bv64, p2: bv64, generation: nat): bv64 {
    Join(Flip(p1, LowBit(generation)), Flip(p2, HighBit(generation)))
  }

  lemma FlipBit(w: bv64, v: bv64, b: bv64)
    requires b < 64 && v <= 1
    ensures Bit(Flip(w, v), b) == (Bit(w, b) != (v == 1))
  {
    hide Bit, Not, Flip;
    FlipAll(w);
    NotBit(w, b);
  }

  lemma FlipAll(w: bv64)
    ensures Flip(w, 0) == w && Flip(w, 1) == Not(w)
  {
  }

  lemma KeepMaskAt(p1: bv64, p2: bv64, generation: nat, b: bv64)
    requires b < 64
    ensures Bit(KeepMask(p1, p2, generation), b)
            == !(Bit(p1, b) == (LowBit(generation) == 1) && Bit(p2, b) == (HighBit(generation) == 1))
  {
    hide Bit, Flip, Join, LowBit, HighBit;
    FlipBit(p1, LowBit(generation), b);
    FlipBit(p2, HighBit(generation), b);
    JoinBit(Flip(p1, LowBit(generation)), Flip(p2, HighBit(generation)), b);
  }

  // --------------------------------------------------------------------- tags

  /** A position: a pair of words and a bit. */
  datatype Cell = Cell(pair: nat, bit: bv64)

  predicate InRange(c: Cell, size: nat) { c.bit < 64 && 2 * c.pair + 1 < size }

  function Tag(data: seq<bv64>, c: Cell): nat
    requires InRange(c, |data|)
  {
    (if Bit(data[2 * c.pair], c.bit) then 1 else 0) + (if Bit(data[2 * c.pair + 1], c.bit) then 2 else 0)
  }

  /** The position a hash value selects. */
  function CellOf(h: bv32, size: nat): (c: Cell)
    requires size > 0 && size % 2 == 0
    ensures InRange(c, size)
  {
    Cell(FastMod(h, size) / 2, (h & 0x3F) as bv64)
  }

  // --------------------------------------------------------------- operations

  datatype Params = Params(perGeneration: nat, hashFuncs: nat, tweak: nat, hash: Hash)

  datatype Filter = Filter(data: seq<bv64>, entries: nat, generation: nat)

  predicate Shape(p: Params, f: Filter) {
    && p.perGeneration > 0 && |f.data| > 0 && |f.data| % 2 == 0
    && 1 <= f.generation <= 3 && f.entries <= p.perGeneration
  }

  function Reset(size: nat): Filter { Filter(seq(size, _ => 0), 0, 1) }

  function Wipe(data: seq<bv64>, generation: nat): (r: seq<bv64>)
    requires |data| % 2 == 0
    ensures |r| == |data|
  {
    seq(|data|, i requires 0 <= i < |data| => WipedWord(data, i, generation))
  }

  function WipedWord(data: seq<bv64>, i: nat, generation: nat): bv64
    requires |data| % 2 == 0 && i < |data|
  {
    Masked(data[i], KeepMask(data[i - i % 2], data[i - i % 2 + 1], generation))
  }

  /** A word of a pair after a wipe. */
  lemma WipedPair(data: seq<bv64>, pair: nat, generation: nat)
    requires |data| % 2 == 0 && 2 * pair + 1 < |data|
    ensures var i := 2 * pair;
            var mask := KeepMask(data[i], data[i + 1], generation);
            WipedWord(data, i, generation) == Masked(data[i], mask)
            && WipedWord(data, i + 1, generation) == Masked(data[i + 1], mask)
  {
    hide KeepMask, Masked;
    assert (2 * pair + 1) % 2 == 1;
  }

  function Mark(data: seq<bv64>, c: Cell, generation: nat): (r: seq<bv64>)
    requires InRange(c, |data|)
    ensures |r| == |data|
  {
    data[2 * c.pair := WithBit(data[2 * c.pair], c.bit, LowBit(generation))]
        [2 * c.pair + 1 := WithBit(data[2 * c.pair + 1], c.bit, HighBit(generation))]
  }

  /** The n-th position of a key. */
  function CellFor(p: Params, size: nat, key: Key, n: nat): (c: Cell)
    requires size > 0 && size % 2 == 0
    ensures InRange(c, size)
  {
    CellOf(p.hash(n, p.tweak, key), size)
  }

  function MarkAll(p: Params, data: seq<bv64>, key: Key, generation: nat, n: nat): (r: seq<bv64>)
    requires |data| > 0 && |data| % 2 == 0
    ensures |r| == |data|
  {
    if n == 0 then data else
    var before := MarkAll(p, data, key, generation, n - 1);
    Mark(before, CellFor(p, |data|, key, n - 1), generation)
  }

  function NextGeneration(g: nat): nat { if g + 1 == 4 then 1 else g + 1 }

  /** Starts a new generation when the current one is full. */
  function Roll(p: Params, f: Filter): (r: Filter)
    requires Shape(p, f)
    ensures |r.data| == |f.data| && 1 <= r.generation <= 3 && r.entries < p.perGeneration
  {
    if f.entries == p.perGeneration then
      var g := NextGeneration(f.generation);
      Filter(Wipe(f.data, g), 0, g)
    else f
  }

  function Insert(p: Params, f: Filter, key: Key): (r: Filter)
    requires Shape(p, f)
    ensures Shape(p, r) && |r.data| == |f.data|
  {
    var g := Roll(p, f);
    Filter(MarkAll(p, g.data, key, g.generation, p.hashFuncs), g.entries + 1, g.generation)
  }

  ghost predicate Contains(p: Params, f: Filter, key: Key)
    requires Shape(p, f)
  {
    forall n | 0 <= n < p.hashFuncs :: Tag(f.data, CellFor(p, |f.data|, key, n)) != 0
  }

  /** A run of inserts into an empty filter. */
  function Run(p: Params, size: nat, keys: seq<Key>): (r: Filter)
    requires p.perGeneration > 0 && size > 0 && size % 2 == 0
    ensures Shape(p, r) && |r.data| == size
  {
    if keys == [] then Reset(size) else Insert(p, Run(p, size, keys[..|keys| - 1]), keys[|keys| - 1])
  }

  // ------------------------------------------------------------ effect on tags

  lemma TagOfGeneration(g: nat)
    requires 1 <= g <= 3
    ensures g == (if LowBit(g) == 1 then 1 else 0) + (if HighBit(g) == 1 then 2 else 0)
  {
  }

  /** Wiping clears exactly the tags of one generation. */
  lemma WipeTag(data: seq<bv64>, g: nat, c: Cell)
    requires |data| % 2 == 0 && InRange(c, |data|) && 1 <= g <= 3
    ensures Tag(Wipe(data, g), c) == if Tag(data, c) == g then 0 else Tag(data, c)
  {
    hide Bit, KeepMask, LowBit, HighBit, Masked, WipedWord;
    WipedPair(data, c.pair, g);
    var i := 2 * c.pair;
    var p1, p2 := data[i], data[i + 1];
    var mask := KeepMask(p1, p2, g);
    assert Wipe(data, g)[i] == Masked(p1, mask) && Wipe(data, g)[i + 1] == Masked(p2, mask);
    MaskedBit(p1, mask, c.bit);
    MaskedBit(p2, mask, c.bit);
    KeepMaskAt(p1, p2, g, c.bit);
    TagOfGeneration(g);
  }

  /** Marking sets one tag and leaves the others. */
  lemma MarkTag(data: seq<bv64>, at: Cell, g: nat, c: Cell)
    requires InRange(at, |data|) && InRange(c, |data|) && 1 <= g <= 3
    ensures Tag(Mark(data, at, g), c) == if c == at then g else Tag(data, c)
  {
    hide Bit, WithBit, LowBit, HighBit;
    WithBitAt(data[2 * at.pair], at.bit, LowBit(g), c.bit);
    WithBitAt(data[2 * at.pair + 1], at.bit, HighBit(g), c.bit);
    TagOfGeneration(g);
  }

  lemma {:induction false} MarkAllTag(p: Params, data: seq<bv64>, key: Key, g: nat, n: nat, c: Cell)
    requires |data| > 0 && |data| % 2 == 0 && InRange(c, |data|) && 1 <= g <= 3
    ensures var r := MarkAll(p, data, key, g, n);
            Tag(r, c) == if exists k :: 0 <= k < n && c == CellFor(p, |data|, key, k) then g else Tag(data, c)
  {
    hide Tag, Mark, CellFor;
    if n > 0 {
      MarkAllTag(p, data, key, g, n - 1, c);
      MarkTag(MarkAll(p, data, key, g, n - 1), CellFor(p, |data|, key, n - 1), g, c);
    }
  }

  // ------------------------------------------------------------------ theorem

  /** The tag of an absolute generation. */
  function TagFor(a: nat): nat { a % 3 + 1 }

  /** The absolute generation the filter is in after n inserts. */
  function Age(n: nat, perGeneration: nat): nat
    requires perGeneration > 0
  {
    if n == 0 then 0 else (n - 1) / perGeneration
  }

  /** How the counters follow from the number of inserts. */
  ghost predicate Counts(p: Params, f: Filter, n: nat)
    requires p.perGeneration > 0
  {
    && f.generation == TagFor(Age(n, p.perGeneration))
    && n == Age(n, p.perGeneration) * p.perGeneration + f.entries
  }

  /** A tag was written by a generation from a to now, at most three of them. */
  ghost predicate Recent(tag: nat, a: nat, now: nat) {
    exists b: nat :: a <= b <= now && tag == TagFor(b)
  }

  /** Every position of every key of the last three generations carries the tag of one of them, no older than the
      key. */
  ghost predicate Kept(p: Params, f: Filter, keys: seq<Key>)
    requires Shape(p, f)
  {
    var now := Age(|keys|, p.perGeneration);
    forall i, k | 0 <= i < |keys| && 0 <= k < p.hashFuncs && now - i / p.perGeneration <= 2 ::
      Recent(Tag(f.data, CellFor(p, |f.data|, keys[i], k)), i / p.perGeneration, now)
  }

  lemma CountStep(p: Params, f: Filter, n: nat)
    requires Shape(p, f) && Counts(p, f, n)
    ensures var now, next := Age(n, p.perGeneration), Age(n + 1, p.perGeneration);
            && next == (if f.entries == p.perGeneration then now + 1 else now) == n / p.perGeneration
            && Roll(p, f).generation == TagFor(next)
            && n == next * p.perGeneration + Roll(p, f).entries
  {
    hide Wipe;
    var e := p.perGeneration;
    var now := Age(n, e);
    if f.entries == e {
      assert now * e + e == (now + 1) * e;
      DivUnique(n, e, now + 1, 0);
    } else {
      DivUnique(n, e, now, f.entries);
    }
  }

  lemma {:induction false} RunCounts(p: Params, size: nat, keys: seq<Key>)
    requires p.perGeneration > 0 && size > 0 && size % 2 == 0
    ensures Counts(p, Run(p, size, keys), |keys|)
  {
    hide MarkAll, Wipe;
    if keys != [] {
      var before := keys[..|keys| - 1];
      RunCounts(p, size, before);
      CountStep(p, Run(p, size, before), |before|);
    }
  }

  /** A tag of the last two generations survives the wipe for the next one. */
  lemma SurvivesRoll(p: Params, f: Filter, n: nat, c: Cell, a: nat)
    requires Shape(p, f) && Counts(p, f, n) && InRange(c, |f.data|)
    requires Recent(Tag(f.data, c), a, Age(n, p.perGeneration)) && Age(n + 1, p.perGeneration) - a <= 2
    ensures Recent(Tag(Roll(p, f).data, c), a, Age(n + 1, p.perGeneration))
  {
    hide Tag, Wipe;
    CountStep(p, f, n);
    var b: nat :| a <= b <= Age(n, p.perGeneration) && Tag(f.data, c) == TagFor(b);
    if f.entries == p.perGeneration {
      WipeTag(f.data, Roll(p, f).generation, c);
    }
    assert Tag(Roll(p, f).data, c) == TagFor(b);
  }

  /** One insert keeps the tags of the last three generations. */
  lemma InsertKeeps(p: Params, f: Filter, keys: seq<Key>, key: Key)
    requires Shape(p, f) && Counts(p, f, |keys|) && Kept(p, f, keys)
    ensures Kept(p, Insert(p, f, key), keys + [key])
  {
    hide Tag, Wipe, Roll, CellFor, MarkAll, Recent, Age, Counts;
    var now := Age(|keys| + 1, p.perGeneration);
    var g := Roll(p, f);
    CountStep(p, f, |keys|);
    var all := keys + [key];
    forall i, k | 0 <= i < |all| && 0 <= k < p.hashFuncs && now - i / p.perGeneration <= 2
      ensures Recent(Tag(Insert(p, f, key).data, CellFor(p, |f.data|, all[i], k)), i / p.perGeneration, now)
    {
      var c := CellFor(p, |f.data|, all[i], k);
      IndexAge(i, |keys|, p.perGeneration);
      MarkAllTag(p, g.data, key, g.generation, p.hashFuncs, c);
      if exists k' :: 0 <= k' < p.hashFuncs && c == CellFor(p, |f.data|, key, k') {
        RecentNow(i / p.perGeneration, now);
      } else {
        SurvivesRoll(p, f, |keys|, c, i / p.perGeneration);
      }
    }
  }

  lemma RecentNow(a: nat, now: nat)
    requires a <= now
    ensures Recent(TagFor(now), a, now)
  {
  }

  /** An earlier insert belongs to an earlier generation or the same one. */
  lemma IndexAge(i: nat, n: nat, e: nat)
    requires e > 0 && i <= n
    ensures i / e <= Age(n + 1, e)
  {
    DivMono(i, n, e);
  }

  lemma DivMono(i: nat, n: nat, e: nat)
    requires e > 0 && i <= n
    ensures 0 <= i / e <= n / e
  {
    var q, q' := i / e, n / e;
    assert i == e * q + i % e && n == e * q' + n % e;
    MulGrows(e, q' - q);
    assert e * (q' - q) == e * q' - e * q;
  }

  lemma {:induction false} RunKeeps(p: Params, size: nat, keys: seq<Key>)
    requires p.perGeneration > 0 && size > 0 && size % 2 == 0
    ensures Kept(p, Run(p, size, keys), keys)
  {
    hide Insert, Kept, Counts;
    if keys == [] {
      KeptNone(p, Reset(size));
    } else {
      var before := keys[..|keys| - 1];
      RunKeeps(p, size, before);
      RunCounts(p, size, before);
      InsertKeeps(p, Run(p, size, before), before, keys[|keys| - 1]);
      assert before + [keys[|keys| - 1]] == keys;
    }
  }

  lemma KeptNone(p: Params, f: Filter)
    requires Shape(p, f)
    ensures Kept(p, f, [])
  {
  }

  /** In any run, a key with at most two generations of inserts after it is contained. */
  lemma RecentContained(p: Params, size: nat, keys: seq<Key>, i: nat)
    requires p.perGeneration > 0 && size > 0 && size % 2 == 0
    requires i < |keys| && |keys| - 1 - i <= 2 * p.perGeneration
    ensures Contains(p, Run(p, size, keys), keys[i])
  {
    hide Run, Tag, CellFor;
    var e := p.perGeneration;
    RunKeeps(p, size, keys);
    DivMono(|keys| - 1, i + 2 * e, e);
    assert (i + 2 * e) / e == i / e + 2 by {
      assert i + 2 * e == e * (i / e + 2) + i % e;
      DivUnique(i + 2 * e, e, i / e + 2, i % e);
    }
    var f := Run(p, size, keys);
    forall n | 0 <= n < p.hashFuncs
      ensures Tag(f.data, CellFor(p, |f.data|, keys[i], n)) != 0
    {
      assert Recent(Tag(f.data, CellFor(p, |f.data|, keys[i], n)), i / e, Age(|keys|, e));
    }
  }

  /** Generations of half the advertised number of elements, rounded up, keep that many last keys. */
  lemma LastElementsContained(p: Params, size: nat, elements: nat, keys: seq<Key>, i: nat)
    requires elements > 0 && p.perGeneration == (elements + 1) / 2 && size > 0 && size % 2 == 0
    requires |keys| - elements <= i < |keys|
    ensures Contains(p, Run(p, size, keys), keys[i])
  {
    RecentContained(p, size, keys, i);
  }

  /** An empty filter contains nothing. */
  lemma EmptyContainsNothing(p: Params, size: nat, key: Key)
    requires p.perGeneration > 0 && p.hashFuncs > 0 && size > 0 && size % 2 == 0
    ensures !Contains(p, Reset(size), key)
  {
    assert Tag(Reset(size).data, CellFor(p, size, key, 0)) == 0;
  }

  // ------------------------------------------------------------------- object

  class CRollingBloomFilter {
    const perGeneration: nat
    const hashFuncs: nat
    const hash: Hash
    const data: array<bv64>
    var entries: nat
    var generation: nat
    var tweak: nat

    ghost function P(): Params
      reads this
    {
      Params(perGeneration, hashFuncs, tweak, hash)
    }

    ghost function Abs(): Filter
      reads this, data
    {
      Filter(data[..], entries, generation)
    }

    ghost predicate Valid()
      reads this, data
    {
      Shape(P(), Abs())
    }

    /** The number of filter bits and of hash functions come from the false-positive rate. */
    constructor (elements: nat, hashFuncs: nat, filterBits: nat, hash: Hash, tweak: nat)
      requires elements > 0 && filterBits > 0
      ensures Valid() && fresh(data) && data.Length == (filterBits + 63) / 64 * 2
      ensures P() == Params((elements + 1) / 2, hashFuncs, tweak, hash) && Abs() == Reset(data.Length)
    {
      perGeneration := (elements + 1) / 2;
      this.hashFuncs, this.hash := hashFuncs, hash;
      data := new bv64[(filterBits + 63) / 64 * 2];
      new;
      Clear(tweak);
    }

    /** Empties the filter and takes a new tweak. */
    method Clear(newTweak: nat)
      requires perGeneration > 0 && data.Length > 0 && data.Length % 2 == 0
      modifies this, data
      ensures Valid() && Abs() == Reset(data.Length) && tweak == newTweak
    {
      tweak := newTweak;
      entries, generation := 0, 1;
      var i := 0;
      while i < data.Length
        invariant 0 <= i <= data.Length && forall j | 0 <= j < i :: data[j] == 0
        modifies data
      {
        data[i] := 0;
        i := i + 1;
      }
    }

    method WipeGeneration()
      requires Valid()
      modifies data
      ensures data[..] == Wipe(old(data[..]), generation)
    {
      hide KeepMask, Masked, WipedWord;
      ghost var was := data[..];
      var p := 0;
      while p < data.Length
        invariant 0 <= p <= data.Length && p % 2 == 0
        invariant forall i | 0 <= i < p :: data[i] == WipedWord(was, i, generation)
        invariant forall i | p <= i < data.Length :: data[i] == was[i]
      {
        WipedPair(was, p / 2, generation);
        assert 2 * (p / 2) == p;
        var p1, p2 := data[p], data[p + 1];
        var mask := KeepMask(p1, p2, generation);
        data[p] := Masked(p1, mask);
        data[p + 1] := Masked(p2, mask);
        p := p + 2;
      }
    }

    method InsertKey(key: Key)
      requires Valid()
      modifies this`entries, this`generation, data
      ensures Valid() && Abs() == Insert(P(), old(Abs()), key)
    {
      hide Wipe, Mark, CellFor;
      if entries == perGeneration {
        entries := 0;
        generation := generation + 1;
        if generation == 4 {
          generation := 1;
        }
        WipeGeneration();
      }
      entries := entries + 1;
      ghost var start := data[..];
      var n := 0;
      while n < hashFuncs
        invariant 0 <= n <= hashFuncs && data[..] == MarkAll(P(), start, key, generation, n)
        modifies data
      {
        MarkOne(hash(n, tweak, key), key, n);
        n := n + 1;
      }
    }

    method MarkOne(h: bv32, ghost key: Key, ghost n: nat)
      requires Valid() && h == hash(n, tweak, key)
      modifies data
      ensures data[..] == Mark(old(data[..]), CellFor(P(), data.Length, key, n), generation)
    {
      hide WithBit, LowBit, HighBit;
      var bit := (h & 0x3F) as bv64;
      var pos := FastMod(h, data.Length);
      var even := pos - pos % 2;
      data[even] := WithBit(data[even], bit, LowBit(generation));
      data[even + 1] := WithBit(data[even + 1], bit, HighBit(generation));
    }

    method ContainsKey(key: Key) returns (r: bool)
      requires Valid()
      ensures r <==> Contains(P(), Abs(), key)
    {
      hide Bit;
      var n := 0;
      while n < hashFuncs
        invariant 0 <= n <= hashFuncs
        invariant forall k | 0 <= k < n :: Tag(data[..], CellFor(P(), data.Length, key, k)) != 0
      {
        var h := hash(n, tweak, key);
        var bit := (h & 0x3F) as bv64;
        var pos := FastMod(h, data.Length);
        var even := pos - pos % 2;
        EitherBit(data[even], data[even + 1], bit);
        assert CellFor(P(), data.Length, key, n) == Cell(even / 2, bit);
        if ((data[even] | data[even + 1]) >> bit) & 1 != 1 {
          assert Tag(data[..], CellFor(P(), data.Length, key, n)) == 0;
          return false;
        }
        n := n + 1;
      }
      r := true;
    }
  }
}
