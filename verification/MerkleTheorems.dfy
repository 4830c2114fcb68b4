/**
 What partial Merkle trees promise: a tree that proves the right root reports
 only true leaves, a tree that was built reports exactly the selected ones, and
 its size is bounded.
 */
module MerkleTheorems {
  import opened MerkleModel
  import opened Arithmetic
  import BitPacking

  type Hasher = (Digest, Digest) -> Digest

  /** The pairs of digests hashed to compute a node of the tree. */
  ghost function TreePairs(H: Hasher, txids: seq<Digest>, height: nat, pos: nat): set<(Digest, Digest)>
    requires pos < TreeWidth(|txids|, height)
    decreases height
  {
    if height == 0 then {} else
    Children(|txids|, height, pos);
    var left := CalcHash(H, txids, height - 1, 2 * pos);
    if HasRight(|txids|, height, pos) then
      TreePairs(H, txids, height - 1, 2 * pos) + TreePairs(H, txids, height - 1, 2 * pos + 1)
      + {(left, CalcHash(H, txids, height - 1, 2 * pos + 1))}
    else TreePairs(H, txids, height - 1, 2 * pos) + {(left, left)}
  }

  /** No two different pairs of a set have the same hash. */
  ghost predicate CollisionFree(H: Hasher, pairs: set<(Digest, Digest)>) {
    forall a, b | a in pairs && b in pairs && H(a.0, a.1) == H(b.0, b.1) :: a == b
  }

  ghost function Elements(s: seq<(Digest, Digest)>): set<(Digest, Digest)> { set x | x in s }

  /** Every reported leaf is the transaction id at the reported index. */
  ghost predicate Truthful(matches: seq<(nat, Digest)>, txids: seq<Digest>) {
    forall k | 0 <= k < |matches| :: matches[k].0 < |txids| && matches[k].1 == txids[matches[k].0]
  }

  // ---------------------------------------------------------------- soundness

  /** The traversal of an inner node whose flag bit is set. */
  lemma ExtractInner(H: Hasher, n: nat, bits: seq<bool>, hashes: seq<Digest>, height: nat, pos: nat, bu: nat, hu: nat)
    requires height > 0 && bu < |bits| && bits[bu]
    ensures var e := Extract(H, n, bits, hashes, height, pos, bu, hu);
            var l := Extract(H, n, bits, hashes, height - 1, 2 * pos, bu + 1, hu);
            var r := if HasRight(n, height, pos)
                     then Extract(H, n, bits, hashes, height - 1, 2 * pos + 1, l.bitsUsed, l.hashUsed)
                     else l.(matches := [], pairs := []);
            && e.hash == H(l.hash, r.hash) && e.bitsUsed == r.bitsUsed && e.hashUsed == r.hashUsed
            && (e.bad <==> l.bad || r.bad || (HasRight(n, height, pos) && r.hash == l.hash))
            && e.matches == l.matches + r.matches && e.pairs == l.pairs + r.pairs + [(l.hash, r.hash)]
  {
    hide TreeWidth;
    var l := Extract(H, n, bits, hashes, height - 1, 2 * pos, bu + 1, hu);
    if !HasRight(n, height, pos) {
      assert l.matches + [] == l.matches && l.pairs + [] == l.pairs;
    }
  }

  /** The hash of the right child, or of the left one where there is no right child. */
  ghost function RightHash(H: Hasher, txids: seq<Digest>, height: nat, pos: nat): Digest
    requires height > 0 && pos < TreeWidth(|txids|, height)
  {
    Children(|txids|, height, pos);
    if HasRight(|txids|, height, pos) then CalcHash(H, txids, height - 1, 2 * pos + 1)
    else CalcHash(H, txids, height - 1, 2 * pos)
  }

  lemma TreeInner(H: Hasher, txids: seq<Digest>, height: nat, pos: nat)
    requires height > 0 && pos < TreeWidth(|txids|, height)
    ensures 2 * pos < TreeWidth(|txids|, height - 1)
    ensures var left, right := CalcHash(H, txids, height - 1, 2 * pos), RightHash(H, txids, height, pos);
            && CalcHash(H, txids, height, pos) == H(left, right)
            && (left, right) in TreePairs(H, txids, height, pos)
            && TreePairs(H, txids, height - 1, 2 * pos) <= TreePairs(H, txids, height, pos)
            && (HasRight(|txids|, height, pos) ==>
                  TreePairs(H, txids, height - 1, 2 * pos + 1) <= TreePairs(H, txids, height, pos))
  {
    Children(|txids|, height, pos);
    hide TreeWidth;
  }

  /** A traversal that gives the true hash of a node reports only true leaves below it. */
  lemma {:induction false} ExtractSound(H: Hasher, txids: seq<Digest>, bits: seq<bool>, hashes: seq<Digest>,
                                        height: nat, pos: nat, bu: nat, hu: nat, pairs: set<(Digest, Digest)>)
    requires pos < TreeWidth(|txids|, height) && CollisionFree(H, pairs)
    requires TreePairs(H, txids, height, pos) <= pairs
    requires var e := Extract(H, |txids|, bits, hashes, height, pos, bu, hu);
             !e.bad && e.hash == CalcHash(H, txids, height, pos) && forall x | x in e.pairs :: x in pairs
    ensures Truthful(Extract(H, |txids|, bits, hashes, height, pos, bu, hu).matches, txids)
    decreases height
  {
    hide TreeWidth, TreePairs, CalcHash, Extract;
    var n := |txids|;
    if height > 0 && bu < |bits| && bits[bu] {
      ExtractInner(H, n, bits, hashes, height, pos, bu, hu);
      TreeInner(H, txids, height, pos);
      var l := Extract(H, n, bits, hashes, height - 1, 2 * pos, bu + 1, hu);
      var left, right := CalcHash(H, txids, height - 1, 2 * pos), RightHash(H, txids, height, pos);
      var r := if HasRight(n, height, pos)
               then Extract(H, n, bits, hashes, height - 1, 2 * pos + 1, l.bitsUsed, l.hashUsed)
               else l.(matches := [], pairs := []);
      SubPairs(l.pairs, r.pairs, (l.hash, r.hash), pairs);
      SamePair(H, pairs, (l.hash, r.hash), (left, right));
      ExtractSound(H, txids, bits, hashes, height - 1, 2 * pos, bu + 1, hu, pairs);
      if HasRight(n, height, pos) {
        ExtractSound(H, txids, bits, hashes, height - 1, 2 * pos + 1, l.bitsUsed, l.hashUsed, pairs);
      }
    } else {
      ExtractOuter(H, txids, bits, hashes, height, pos, bu, hu);
    }
  }

  lemma SamePair(H: Hasher, pairs: set<(Digest, Digest)>, a: (Digest, Digest), b: (Digest, Digest))
    requires CollisionFree(H, pairs) && a in pairs && b in pairs && H(a.0, a.1) == H(b.0, b.1)
    ensures a == b
  {
  }

  lemma ExtractOuter(H: Hasher, txids: seq<Digest>, bits: seq<bool>, hashes: seq<Digest>, height: nat, pos: nat,
                     bu: nat, hu: nat)
    requires pos < TreeWidth(|txids|, height) && !(height > 0 && bu < |bits| && bits[bu])
    requires var e := Extract(H, |txids|, bits, hashes, height, pos, bu, hu);
             !e.bad && e.hash == CalcHash(H, txids, height, pos)
    ensures Truthful(Extract(H, |txids|, bits, hashes, height, pos, bu, hu).matches, txids)
  {
    WidthStep(|txids|, 0);
    hide TreeWidth;
  }

  lemma SubPairs(a: seq<(Digest, Digest)>, b: seq<(Digest, Digest)>, c: (Digest, Digest), pairs: set<(Digest, Digest)>)
    requires forall x | x in a + b + [c] :: x in pairs
    ensures c in pairs
    ensures forall x | x in a :: x in pairs
    ensures forall x | x in b :: x in pairs
  {
    assert c in a + b + [c];
    forall x | x in a ensures x in pairs {
      assert x in a + b + [c];
    }
    forall x | x in b ensures x in pairs {
      assert x in a + b + [c];
    }
  }

  lemma RootWidth(n: nat)
    requires n > 0
    ensures TreeWidth(n, Height(n)) == 1
  {
    WidthStep(n, 0);
    RootExists(n, 0);
  }

  /** The Merkle root of a list of transaction ids. */
  ghost function MerkleRoot(H: Hasher, txids: seq<Digest>): Digest
    requires txids != []
  {
    RootWidth(|txids|);
    CalcHash(H, txids, Height(|txids|), 0)
  }

  /** All pairs hashed to compute the root and to check a partial tree against it. */
  ghost function HashedPairs(H: Hasher, txids: seq<Digest>, bits: seq<bool>, hashes: seq<Digest>): set<(Digest, Digest)>
    requires txids != []
  {
    RootWidth(|txids|);
    TreePairs(H, txids, Height(|txids|), 0)
    + Elements(Extract(H, |txids|, bits, hashes, Height(|txids|), 0, 0, 0).pairs)
  }

  /**
   Whatever bits and hashes a partial tree holds: if it proves the root of a block, and no two of the
   pairs hashed on the way collide, then every leaf it reports is in the block at the reported index.
   */
  lemma ExtractMatchesSound(H: Hasher, txids: seq<Digest>, bits: seq<bool>, hashes: seq<Digest>)
    requires txids != [] && MerkleRoot(H, txids) != NULL_DIGEST
    requires ExtractMatches(H, |txids|, bits, hashes).0 == MerkleRoot(H, txids)
    requires CollisionFree(H, HashedPairs(H, txids, bits, hashes))
    ensures Truthful(ExtractMatches(H, |txids|, bits, hashes).1, txids)
  {
    hide TreeWidth, TreePairs, CalcHash, Extract;
    RootWidth(|txids|);
    ExtractSound(H, txids, bits, hashes, Height(|txids|), 0, 0, 0, HashedPairs(H, txids, bits, hashes));
  }

  /** Without a root different from the null digest the promise fails: a rejected tree still reports its leaves. */
  lemma NullRootReports(H: Hasher)
    ensures var txids, hashes := [NULL_DIGEST], [5];
            var bits := [true, false, false, false, false, false, false, false, false];
            && MerkleRoot(H, txids) == NULL_DIGEST == ExtractMatches(H, 1, bits, hashes).0
            && !Truthful(ExtractMatches(H, 1, bits, hashes).1, txids)
  {
    assert TreeWidth(1, 0) == 1;
    assert Height(1) == 0;
    var bits, hashes := [true, false, false, false, false, false, false, false, false], [5];
    assert ExtractMatches(H, 1, bits, hashes).1 == [(0, 5)];
    assert ExtractMatches(H, 1, bits, hashes).1[0] == (0, 5);
  }

  /** Whatever a tree that proves the root of a block reports is in the block. */
  ghost predicate Sound(H: Hasher, txids: seq<Digest>)
    requires txids != []
  {
    forall bits: seq<bool>, hashes: seq<Digest> | ExtractMatches(H, |txids|, bits, hashes).0 == MerkleRoot(H, txids) ::
      Truthful(ExtractMatches(H, |txids|, bits, hashes).1, txids)
  }

  ghost predicate Injective(H: Hasher) {
    forall a: (Digest, Digest), b: (Digest, Digest) | H(a.0, a.1) == H(b.0, b.1) :: a == b
  }

  /**
   With an injective hash, extraction is sound for a block exactly when its root is not the null digest, or
   the block has more transactions than extraction accepts.
   */
  lemma SoundExact(H: Hasher, txids: seq<Digest>)
    requires txids != [] && Injective(H)
    ensures Sound(H, txids) <==> MerkleRoot(H, txids) != NULL_DIGEST || |txids| > MAX_TRANSACTIONS
  {
    hide TreeWidth, Extract, MerkleRoot, HeightFrom, Truthful, Injective, CollisionFree, HashedPairs;
    if MerkleRoot(H, txids) != NULL_DIGEST {
      forall bits: seq<bool>, hashes: seq<Digest> | ExtractMatches(H, |txids|, bits, hashes).0 == MerkleRoot(H, txids)
        ensures Truthful(ExtractMatches(H, |txids|, bits, hashes).1, txids)
      {
        InjectiveIsFree(H, HashedPairs(H, txids, bits, hashes));
        ExtractMatchesSound(H, txids, bits, hashes);
      }
    } else if |txids| > MAX_TRANSACTIONS {
      NothingIsTrue(txids);
    } else {
      var bits, hashes := FalseReport(H, txids);
    }
  }

  lemma InjectiveIsFree(H: Hasher, pairs: set<(Digest, Digest)>)
    requires Injective(H)
    ensures CollisionFree(H, pairs)
  {
  }

  lemma NothingIsTrue(txids: seq<Digest>)
    ensures Truthful([], txids)
  {
  }

  lemma OneFalse(txids: seq<Digest>, d: Digest)
    requires txids != [] && d != txids[0]
    ensures !Truthful([(0, d)], txids)
  {
    var reports: seq<(nat, Digest)> := [(0, d)];
    assert reports[0] == (0, d);
  }

  /** A tree that the traversal rejects after it has reported a wrong first leaf. */
  lemma FalseReport(H: Hasher, txids: seq<Digest>) returns (bits: seq<bool>, hashes: seq<Digest>)
    requires txids != [] && |txids| <= MAX_TRANSACTIONS
    ensures var r := ExtractMatches(H, |txids|, bits, hashes); r.0 == NULL_DIGEST && !Truthful(r.1, txids)
  {
    hide TreeWidth, Extract, HeightFrom, Truthful;
    var n := |txids|;
    var d := txids[0] + 1;
    hashes := [d];
    OneFalse(txids, d);
    if n == 1 {
      bits := [true] + seq(8, _ => false);
      LowestTree();
      LeafExtracted(H, 1, bits, hashes);
    } else {
      var h := Height(n);
      bits := seq(h + 1, _ => true);
      HeightPositive(n);
      Spine(H, n, bits, hashes, h, 0, d);
    }
  }

  lemma LowestTree()
    ensures Height(1) == 0
  {
    assert TreeWidth(1, 0) == 1;
  }

  lemma LeafExtracted(H: Hasher, n: nat, bits: seq<bool>, hashes: seq<Digest>)
    requires bits != [] && hashes != [] && bits[0]
    ensures var e := Extract(H, n, bits, hashes, 0, 0, 0, 0);
            !e.bad && e.bitsUsed == 1 && e.hashUsed == 1 && e.matches == [(0, hashes[0])]
  {
  }

  lemma HeightPositive(n: nat)
    requires n > 1
    ensures Height(n) > 0 && HasRight(n, Height(n), 0)
  {
    WidthStep(n, 0);
    NotYetHigh(n, 0, HeightFrom(n, 0) - 1);
  }

  /** Below the height there is more than one node. */
  lemma {:induction false} NotYetHigh(n: nat, from: nat, h: nat)
    requires from <= h < HeightFrom(n, from)
    ensures TreeWidth(n, h) > 1
    decreases h - from
  {
    if from < h {
      NotYetHigh(n, from + 1, h);
    }
  }

  /** Bits for the leftmost path only: its leaf is reported, and every node to the right finds no bit. */
  lemma {:induction false} Spine(H: Hasher, n: nat, bits: seq<bool>, hashes: seq<Digest>, height: nat, bu: nat,
                                 d: Digest)
    requires |bits| == bu + height + 1 && (forall i | 0 <= i < |bits| :: bits[i]) && hashes == [d]
    ensures var e := Extract(H, n, bits, hashes, height, 0, bu, 0);
            && e.bitsUsed == |bits| && e.matches == [(0, d)]
            && (height > 0 && HasRight(n, height, 0) ==> e.bad)
    decreases height
  {
    hide TreeWidth;
    if height > 0 {
      Spine(H, n, bits, hashes, height - 1, bu + 1, d);
    }
  }

  // --------------------------------------------------------------- round trip

  /** A node exists exactly when its first leaf does. */
  lemma NodeIffLeaf(n: nat, height: nat, pos: nat)
    ensures pos < TreeWidth(n, height) <==> FirstLeaf(height, pos) < n
  {
    var p, q := Pow2(height), TreeWidth(n, height);
    var r := (n + p - 1) % p;
    assert n + p - 1 == p * q + r;
    if pos < q {
      MulMono(pos, q - 1, p);
    } else {
      MulMono(q, pos, p);
    }
  }

  lemma LeafRanges(n: nat, height: nat, pos: nat)
    requires height > 0 && pos < TreeWidth(n, height)
    ensures FirstLeaf(height, pos) == FirstLeaf(height - 1, 2 * pos)
    ensures HasRight(n, height, pos) ==>
              EndLeaf(n, height - 1, 2 * pos) == FirstLeaf(height - 1, 2 * pos + 1)
              && EndLeaf(n, height - 1, 2 * pos + 1) == EndLeaf(n, height, pos)
    ensures !HasRight(n, height, pos) ==> EndLeaf(n, height - 1, 2 * pos) == EndLeaf(n, height, pos) == n
    ensures FirstLeaf(height, pos) < EndLeaf(n, height, pos)
  {
    hide TreeWidth, Pow2;
    NodeIffLeaf(n, height, pos);
    NodeIffLeaf(n, height - 1, 2 * pos + 1);
    TwiceAsWide(height);
    Places(pos, Pow2(height - 1));
  }

  lemma TwiceAsWide(height: nat)
    requires height > 0
    ensures Pow2(height) == 2 * Pow2(height - 1)
  {
  }

  lemma Places(pos: nat, p: nat)
    ensures pos * (2 * p) == 2 * pos * p
    ensures (pos + 1) * (2 * p) == (2 * pos + 2) * p == 2 * pos * p + 2 * p
    ensures (2 * pos + 1) * p == 2 * pos * p + p && (2 * pos + 1 + 1) * p == 2 * pos * p + 2 * p
  {
  }

  /** The selected leaves of a range, in order, with their indexes. */
  ghost function Selected(txids: seq<Digest>, mask: seq<bool>, lo: nat, hi: nat): seq<(nat, Digest)>
    requires |mask| == |txids| && hi <= |txids|
    decreases hi - lo
  {
    if lo >= hi then [] else (if mask[lo] then [(lo, txids[lo])] else []) + Selected(txids, mask, lo + 1, hi)
  }

  lemma {:induction false} SelectedSplit(txids: seq<Digest>, mask: seq<bool>, lo: nat, mid: nat, hi: nat)
    requires |mask| == |txids| && lo <= mid <= hi <= |txids|
    ensures Selected(txids, mask, lo, hi) == Selected(txids, mask, lo, mid) + Selected(txids, mask, mid, hi)
    decreases mid - lo
  {
    if lo < mid {
      SelectedSplit(txids, mask, lo + 1, mid, hi);
    }
  }

  lemma {:induction false} SelectedNone(txids: seq<Digest>, mask: seq<bool>, lo: nat, hi: nat)
    requires |mask| == |txids| && hi <= |txids| && !AnyMatch(mask, lo, hi)
    ensures Selected(txids, mask, lo, hi) == []
    decreases hi - lo
  {
    if lo < hi {
      SelectedNone(txids, mask, lo + 1, hi);
    }
  }

  /** Whether the traversal meets a node with two children of the same hash. */
  ghost predicate TwinsBelow(H: Hasher, txids: seq<Digest>, mask: seq<bool>, height: nat, pos: nat)
    requires |mask| == |txids| && pos < TreeWidth(|txids|, height)
    decreases height
  {
    if height == 0 || !ParentOfMatch(mask, height, pos) then false else
    Children(|txids|, height, pos);
    || TwinsBelow(H, txids, mask, height - 1, 2 * pos)
    || (HasRight(|txids|, height, pos)
        && (TwinsBelow(H, txids, mask, height - 1, 2 * pos + 1)
            || CalcHash(H, txids, height - 1, 2 * pos + 1) == CalcHash(H, txids, height - 1, 2 * pos)))
  }

  /** A sequence occurs in another at a position. */
  ghost predicate OccursAt<T>(whole: seq<T>, at: nat, part: seq<T>) {
    at + |part| <= |whole| && whole[at..at + |part|] == part
  }

  lemma OccursSplit<T>(whole: seq<T>, at: nat, a: seq<T>, b: seq<T>)
    requires OccursAt(whole, at, a + b)
    ensures OccursAt(whole, at, a) && OccursAt(whole, at + |a|, b)
  {
    var w := whole[at..at + |a + b|];
    assert whole[at..at + |a|] == w[..|a|];
    assert whole[at + |a|..at + |a| + |b|] == w[|a|..];
    assert (a + b)[..|a|] == a && (a + b)[|a|..] == b;
  }

  /** What the traversal of a built subtree gives. */
  ghost predicate Rebuilt(H: Hasher, txids: seq<Digest>, mask: seq<bool>, height: nat, pos: nat, bu: nat, hu: nat,
                          e: Extraction)
    requires |mask| == |txids| && pos < TreeWidth(|txids|, height)
  {
    && e.hash == CalcHash(H, txids, height, pos)
    && e.bitsUsed == bu + |BuildBits(mask, height, pos)|
    && e.hashUsed == hu + |BuildHashes(H, txids, mask, height, pos)|
    && (e.bad <==> TwinsBelow(H, txids, mask, height, pos))
    && e.matches == Selected(txids, mask, FirstLeaf(height, pos), EndLeaf(|txids|, height, pos))
  }

  lemma RebuiltOuter(H: Hasher, txids: seq<Digest>, mask: seq<bool>, height: nat, pos: nat,
                     bits: seq<bool>, hashes: seq<Digest>, bu: nat, hu: nat)
    requires |mask| == |txids| && pos < TreeWidth(|txids|, height)
    requires height == 0 || !ParentOfMatch(mask, height, pos)
    requires OccursAt(bits, bu, BuildBits(mask, height, pos))
    requires OccursAt(hashes, hu, BuildHashes(H, txids, mask, height, pos))
    ensures Rebuilt(H, txids, mask, height, pos, bu, hu, Extract(H, |txids|, bits, hashes, height, pos, bu, hu))
  {
    var f := ParentOfMatch(mask, height, pos);
    assert bits[bu] == bits[bu..bu + 1][0] == f;
    assert hashes[hu] == hashes[hu..hu + 1][0] == CalcHash(H, txids, height, pos);
    if !f {
      SelectedNone(txids, mask, FirstLeaf(height, pos), EndLeaf(|txids|, height, pos));
    } else {
      LeafAlone(txids, mask, pos);
    }
  }

  lemma LeafAlone(txids: seq<Digest>, mask: seq<bool>, pos: nat)
    requires |mask| == |txids| && pos < TreeWidth(|txids|, 0)
    ensures FirstLeaf(0, pos) == pos < |txids| && EndLeaf(|txids|, 0, pos) == pos + 1
    ensures ParentOfMatch(mask, 0, pos) <==> mask[pos]
    ensures Selected(txids, mask, pos, pos + 1) == if mask[pos] then [(pos, txids[pos])] else []
  {
    WidthStep(|txids|, 0);
    assert Pow2(0) == 1;
  }

  /** The bits and hashes of a right child, if there is one. */
  ghost function RightBits(mask: seq<bool>, height: nat, pos: nat): seq<bool>
    requires height > 0
  {
    if HasRight(|mask|, height, pos) then BuildBits(mask, height - 1, 2 * pos + 1) else []
  }

  ghost function RightHashes(H: Hasher, txids: seq<Digest>, mask: seq<bool>, height: nat, pos: nat): seq<Digest>
    requires height > 0 && |mask| == |txids|
  {
    if HasRight(|mask|, height, pos) then BuildHashes(H, txids, mask, height - 1, 2 * pos + 1) else []
  }

  lemma BuildInner(H: Hasher, txids: seq<Digest>, mask: seq<bool>, height: nat, pos: nat)
    requires |mask| == |txids| && pos < TreeWidth(|txids|, height) && height > 0 && ParentOfMatch(mask, height, pos)
    ensures 2 * pos < TreeWidth(|txids|, height - 1)
    ensures BuildBits(mask, height, pos)
            == [true] + (BuildBits(mask, height - 1, 2 * pos) + RightBits(mask, height, pos))
    ensures BuildHashes(H, txids, mask, height, pos)
              == BuildHashes(H, txids, mask, height - 1, 2 * pos) + RightHashes(H, txids, mask, height, pos)
  {
    hide TreeWidth, ParentOfMatch, CalcHash;
    Children(|txids|, height, pos);
  }

  lemma TwinsInner(H: Hasher, txids: seq<Digest>, mask: seq<bool>, height: nat, pos: nat)
    requires |mask| == |txids| && pos < TreeWidth(|txids|, height) && height > 0 && ParentOfMatch(mask, height, pos)
    ensures 2 * pos < TreeWidth(|txids|, height - 1)
    ensures TwinsBelow(H, txids, mask, height, pos) <==>
              || TwinsBelow(H, txids, mask, height - 1, 2 * pos)
              || (HasRight(|txids|, height, pos)
                  && (TwinsBelow(H, txids, mask, height - 1, 2 * pos + 1)
                      || RightHash(H, txids, height, pos) == CalcHash(H, txids, height - 1, 2 * pos)))
  {
    Children(|txids|, height, pos);
    hide TreeWidth, ParentOfMatch, CalcHash;
  }

  /** An inner node is rebuilt when its children are. */
  lemma RebuiltInner(H: Hasher, txids: seq<Digest>, mask: seq<bool>, height: nat, pos: nat,
                     bits: seq<bool>, hashes: seq<Digest>, bu: nat, hu: nat)
    requires |mask| == |txids| && pos < TreeWidth(|txids|, height) && height > 0 && ParentOfMatch(mask, height, pos)
    requires bu < |bits| && bits[bu] && 2 * pos < TreeWidth(|txids|, height - 1)
    requires var l := Extract(H, |txids|, bits, hashes, height - 1, 2 * pos, bu + 1, hu);
             && Rebuilt(H, txids, mask, height - 1, 2 * pos, bu + 1, hu, l)
             && (HasRight(|txids|, height, pos) ==>
                   Rebuilt(H, txids, mask, height - 1, 2 * pos + 1, l.bitsUsed, l.hashUsed,
                           Extract(H, |txids|, bits, hashes, height - 1, 2 * pos + 1, l.bitsUsed, l.hashUsed)))
    ensures Rebuilt(H, txids, mask, height, pos, bu, hu, Extract(H, |txids|, bits, hashes, height, pos, bu, hu))
  {
    hide TreeWidth, CalcHash, Extract, BuildBits, BuildHashes, TwinsBelow, ParentOfMatch, Selected, FirstLeaf, EndLeaf;
    BuildInner(H, txids, mask, height, pos);
    TwinsInner(H, txids, mask, height, pos);
    TreeInner(H, txids, height, pos);
    LeafRanges(|txids|, height, pos);
    ExtractInner(H, |txids|, bits, hashes, height, pos, bu, hu);
    if HasRight(|txids|, height, pos) {
      MiddleLeaf(|txids|, height, pos);
      SelectedSplit(txids, mask, FirstLeaf(height, pos), FirstLeaf(height - 1, 2 * pos + 1),
                    EndLeaf(|txids|, height, pos));
    }
  }

  lemma OccursInner(H: Hasher, txids: seq<Digest>, mask: seq<bool>, height: nat, pos: nat,
                    bits: seq<bool>, hashes: seq<Digest>, bu: nat, hu: nat)
    requires |mask| == |txids| && pos < TreeWidth(|txids|, height) && height > 0 && ParentOfMatch(mask, height, pos)
    requires OccursAt(bits, bu, BuildBits(mask, height, pos))
    requires OccursAt(hashes, hu, BuildHashes(H, txids, mask, height, pos))
    ensures bu < |bits| && bits[bu] && 2 * pos < TreeWidth(|txids|, height - 1)
    ensures var bl, hl := BuildBits(mask, height - 1, 2 * pos), BuildHashes(H, txids, mask, height - 1, 2 * pos);
            && OccursAt(bits, bu + 1, bl) && OccursAt(hashes, hu, hl)
            && OccursAt(bits, bu + 1 + |bl|, RightBits(mask, height, pos))
            && OccursAt(hashes, hu + |hl|, RightHashes(H, txids, mask, height, pos))
  {
    hide TreeWidth, BuildBits, BuildHashes, ParentOfMatch, RightBits, RightHashes;
    BuildInner(H, txids, mask, height, pos);
    var bl, hl := BuildBits(mask, height - 1, 2 * pos), BuildHashes(H, txids, mask, height - 1, 2 * pos);
    var br, hr := RightBits(mask, height, pos), RightHashes(H, txids, mask, height, pos);
    OccursSplit(bits, bu, [true], bl + br);
    OccursSplit(bits, bu + 1, bl, br);
    OccursSplit(hashes, hu, hl, hr);
    assert bits[bu] == bits[bu..bu + 1][0];
  }

  /** Decoding a built subtree gives its hash, consumes exactly its bits and hashes, and reports its selected leaves. */
  lemma {:induction false} ExtractInvertsBuild(H: Hasher, txids: seq<Digest>, mask: seq<bool>, height: nat, pos: nat,
                                               bits: seq<bool>, hashes: seq<Digest>, bu: nat, hu: nat)
    requires |mask| == |txids| && pos < TreeWidth(|txids|, height)
    requires OccursAt(bits, bu, BuildBits(mask, height, pos))
    requires OccursAt(hashes, hu, BuildHashes(H, txids, mask, height, pos))
    ensures Rebuilt(H, txids, mask, height, pos, bu, hu, Extract(H, |txids|, bits, hashes, height, pos, bu, hu))
    decreases height
  {
    hide TreeWidth, CalcHash, Extract, BuildBits, BuildHashes, TwinsBelow, ParentOfMatch, Selected, FirstLeaf, EndLeaf,
         OccursAt;
    if height == 0 || !ParentOfMatch(mask, height, pos) {
      RebuiltOuter(H, txids, mask, height, pos, bits, hashes, bu, hu);
    } else {
      OccursInner(H, txids, mask, height, pos, bits, hashes, bu, hu);
      ExtractInvertsBuild(H, txids, mask, height - 1, 2 * pos, bits, hashes, bu + 1, hu);
      if HasRight(|txids|, height, pos) {
        var l := Extract(H, |txids|, bits, hashes, height - 1, 2 * pos, bu + 1, hu);
        ExtractInvertsBuild(H, txids, mask, height - 1, 2 * pos + 1, bits, hashes, l.bitsUsed, l.hashUsed);
      }
      RebuiltInner(H, txids, mask, height, pos, bits, hashes, bu, hu);
    }
  }

  lemma MiddleLeaf(n: nat, height: nat, pos: nat)
    requires height > 0 && pos < TreeWidth(n, height) && HasRight(n, height, pos)
    ensures FirstLeaf(height, pos) <= FirstLeaf(height - 1, 2 * pos + 1) <= EndLeaf(n, height, pos) <= n
  {
    LeafRanges(n, height, pos);
    NodeIffLeaf(n, height - 1, 2 * pos + 1);
    hide TreeWidth;
    var p := Pow2(height - 1);
    assert (2 * pos + 1) * p == 2 * pos * p + p;
    assert (2 * pos + 2) * p == 2 * pos * p + 2 * p;
  }

  // --------------------------------------------------------------------- size

  /** The number of selected leaves of a range. */
  ghost function Count(mask: seq<bool>, lo: nat, hi: nat): nat
    requires hi <= |mask|
    decreases hi - lo
  {
    if lo >= hi then 0 else (if mask[lo] then 1 else 0) + Count(mask, lo + 1, hi)
  }

  lemma {:induction false} CountSplit(mask: seq<bool>, lo: nat, mid: nat, hi: nat)
    requires lo <= mid <= hi <= |mask|
    ensures Count(mask, lo, hi) == Count(mask, lo, mid) + Count(mask, mid, hi)
    decreases mid - lo
  {
    if lo < mid {
      CountSplit(mask, lo + 1, mid, hi);
    }
  }

  lemma {:induction false} CountIffAny(mask: seq<bool>, lo: nat, hi: nat)
    requires hi <= |mask|
    ensures Count(mask, lo, hi) > 0 <==> AnyMatch(mask, lo, hi)
    decreases hi - lo
  {
    if lo < hi {
      CountIffAny(mask, lo + 1, hi);
    }
  }

  ghost function CountBelow(mask: seq<bool>, height: nat, pos: nat): nat {
    Count(mask, FirstLeaf(height, pos), EndLeaf(|mask|, height, pos))
  }

  lemma CountInner(mask: seq<bool>, height: nat, pos: nat)
    requires height > 0 && pos < TreeWidth(|mask|, height)
    ensures CountBelow(mask, height, pos) ==
              CountBelow(mask, height - 1, 2 * pos)
              + if HasRight(|mask|, height, pos) then CountBelow(mask, height - 1, 2 * pos + 1) else 0
  {
    hide TreeWidth, FirstLeaf, EndLeaf;
    LeafRanges(|mask|, height, pos);
    if HasRight(|mask|, height, pos) {
      MiddleLeaf(|mask|, height, pos);
      CountSplit(mask, FirstLeaf(height, pos), FirstLeaf(height - 1, 2 * pos + 1), EndLeaf(|mask|, height, pos));
    }
  }

  ghost function LeavesBelow(n: nat, height: nat, pos: nat): int {
    EndLeaf(n, height, pos) - FirstLeaf(height, pos)
  }

  lemma LeavesInner(n: nat, height: nat, pos: nat)
    requires height > 0 && pos < TreeWidth(n, height)
    ensures LeavesBelow(n, height, pos) ==
              LeavesBelow(n, height - 1, 2 * pos)
              + if HasRight(n, height, pos) then LeavesBelow(n, height - 1, 2 * pos + 1) else 0
  {
    hide TreeWidth, FirstLeaf, EndLeaf;
    LeafRanges(n, height, pos);
  }

  lemma LeavesPositive(n: nat, height: nat, pos: nat)
    requires pos < TreeWidth(n, height)
    ensures LeavesBelow(n, height, pos) >= 1
  {
    NodeIffLeaf(n, height, pos);
    hide TreeWidth;
    assert (pos + 1) * Pow2(height) == pos * Pow2(height) + Pow2(height);
  }

  /** The hashes of a subtree: no more than its leaves, than its bits, and than one plus its height per selected
      leaf. */
  lemma {:induction false} SizeBounds(H: Hasher, txids: seq<Digest>, mask: seq<bool>, height: nat, pos: nat)
    requires |mask| == |txids| && pos < TreeWidth(|txids|, height)
    ensures var k := |BuildHashes(H, txids, mask, height, pos)|;
            && k <= LeavesBelow(|txids|, height, pos)
            && k <= |BuildBits(mask, height, pos)|
            && k <= 1 + CountBelow(mask, height, pos) * height
    decreases height
  {
    hide TreeWidth, BuildBits, BuildHashes, ParentOfMatch, CountBelow, LeavesBelow;
    if height == 0 || !ParentOfMatch(mask, height, pos) {
      BuildOuter(H, txids, mask, height, pos);
      LeavesPositive(|txids|, height, pos);
      MulNonNegative(CountBelow(mask, height, pos), height);
    } else {
      BuildInner(H, txids, mask, height, pos);
      LeavesInner(|txids|, height, pos);
      CountInner(mask, height, pos);
      SomeBelow(mask, height, pos);
      SizeBounds(H, txids, mask, height - 1, 2 * pos);
      var a := CountBelow(mask, height - 1, 2 * pos);
      if HasRight(|txids|, height, pos) {
        SizeBounds(H, txids, mask, height - 1, 2 * pos + 1);
        var b := CountBelow(mask, height - 1, 2 * pos + 1);
        NoneBelow(H, txids, mask, height - 1, 2 * pos);
        NoneBelow(H, txids, mask, height - 1, 2 * pos + 1);
        BoundStep(a, b, height, |BuildHashes(H, txids, mask, height - 1, 2 * pos)|,
                  |BuildHashes(H, txids, mask, height - 1, 2 * pos + 1)|);
      } else {
        assert a * height == a * (height - 1) + a;
      }
    }
  }

  lemma BoundStep(a: nat, b: nat, height: nat, ka: nat, kb: nat)
    requires height > 0 && a + b > 0
    requires ka <= 1 + a * (height - 1) && kb <= 1 + b * (height - 1)
    requires (a == 0 ==> ka == 1) && (b == 0 ==> kb == 1)
    ensures ka + kb <= 1 + (a + b) * height
  {
    assert (a + b) * height == a * (height - 1) + a + b * (height - 1) + b;
    MulNonNegative(a, height - 1);
    MulNonNegative(b, height - 1);
  }

  lemma BuildOuter(H: Hasher, txids: seq<Digest>, mask: seq<bool>, height: nat, pos: nat)
    requires |mask| == |txids| && pos < TreeWidth(|txids|, height)
    requires height == 0 || !ParentOfMatch(mask, height, pos)
    ensures |BuildHashes(H, txids, mask, height, pos)| == 1 == |BuildBits(mask, height, pos)|
  {
  }

  lemma SomeBelow(mask: seq<bool>, height: nat, pos: nat)
    ensures CountBelow(mask, height, pos) > 0 <==> ParentOfMatch(mask, height, pos)
  {
    CountIffAny(mask, FirstLeaf(height, pos), EndLeaf(|mask|, height, pos));
  }

  lemma NoneBelow(H: Hasher, txids: seq<Digest>, mask: seq<bool>, height: nat, pos: nat)
    requires |mask| == |txids| && pos < TreeWidth(|txids|, height)
    ensures CountBelow(mask, height, pos) == 0 ==> |BuildHashes(H, txids, mask, height, pos)| == 1
  {
    SomeBelow(mask, height, pos);
    if CountBelow(mask, height, pos) == 0 {
      BuildOuter(H, txids, mask, height, pos);
    }
  }

  // ------------------------------------------------------- the whole encoding

  ghost function TreeBits(mask: seq<bool>): seq<bool>
    requires mask != []
  {
    RootWidth(|mask|);
    BuildBits(mask, Height(|mask|), 0)
  }

  ghost function TreeHashes(H: Hasher, txids: seq<Digest>, mask: seq<bool>): seq<Digest>
    requires mask != [] && |mask| == |txids|
  {
    RootWidth(|mask|);
    BuildHashes(H, txids, mask, Height(|mask|), 0)
  }

  ghost predicate Twins(H: Hasher, txids: seq<Digest>, mask: seq<bool>)
    requires mask != [] && |mask| == |txids|
  {
    RootWidth(|mask|);
    TwinsBelow(H, txids, mask, Height(|mask|), 0)
  }

  lemma RootLeaves(n: nat)
    requires n > 0
    ensures FirstLeaf(Height(n), 0) == 0 && EndLeaf(n, Height(n), 0) == n
  {
    RootWidth(n);
    NodeIffLeaf(n, Height(n), 1);
    hide TreeWidth;
  }

  /** N <= total_transactions and N <= 1 + matched_transactions * tree_height, for the N hashes of a built tree. */
  lemma TreeSizeBounds(H: Hasher, txids: seq<Digest>, mask: seq<bool>)
    requires mask != [] && |mask| == |txids|
    ensures var k := |TreeHashes(H, txids, mask)|;
            k <= |txids| && k <= |TreeBits(mask)| && k <= 1 + Count(mask, 0, |mask|) * Height(|txids|)
  {
    hide TreeWidth, BuildBits, BuildHashes, HeightFrom, FirstLeaf, EndLeaf, Count;
    RootWidth(|mask|);
    RootLeaves(|mask|);
    SizeBounds(H, txids, mask, Height(|mask|), 0);
  }

  /**
   Building a partial tree, sending its bits packed in bytes, and extracting gives the Merkle root and exactly
   the selected transaction ids with their indexes, in order, exactly when no node met on the way has two
   children with the same hash.
   */
  lemma BuildPackExtract(H: Hasher, txids: seq<Digest>, mask: seq<bool>)
    requires mask != [] && |mask| == |txids| <= MAX_TRANSACTIONS
    ensures var bits := BitPacking.Unpack(BitPacking.Pack(TreeBits(mask)));
            ExtractMatches(H, |txids|, bits, TreeHashes(H, txids, mask)) ==
              (if Twins(H, txids, mask) then NULL_DIGEST else MerkleRoot(H, txids),
               Selected(txids, mask, 0, |txids|))
  {
    hide TreeWidth, CalcHash, Extract, BuildBits, BuildHashes, TwinsBelow, Selected, HeightFrom, FirstLeaf, EndLeaf,
         BitPacking.Pack, BitPacking.Unpack;
    var n, h := |txids|, Height(|txids|);
    RootWidth(n);
    RootLeaves(n);
    var bits, hashes := TreeBits(mask), TreeHashes(H, txids, mask);
    var sent := BitPacking.Unpack(BitPacking.Pack(bits));
    BitPacking.UnpackInvertsPack(bits);
    TreeSizeBounds(H, txids, mask);
    assert OccursAt(sent, 0, bits) && OccursAt(hashes, 0, hashes);
    ExtractInvertsBuild(H, txids, mask, h, 0, sent, hashes, 0, 0);
  }

  /** Without collisions, nodes of one level with the same hash have the same first leaf. */
  lemma {:induction false} SameHashSameLeaf(H: Hasher, txids: seq<Digest>, height: nat, pos: nat, pos': nat,
                                            pairs: set<(Digest, Digest)>)
    requires pos < TreeWidth(|txids|, height) && pos' < TreeWidth(|txids|, height)
    requires CollisionFree(H, pairs) && TreePairs(H, txids, height, pos) <= pairs
             && TreePairs(H, txids, height, pos') <= pairs
    requires CalcHash(H, txids, height, pos) == CalcHash(H, txids, height, pos')
    ensures FirstLeaf(height, pos) < |txids| && FirstLeaf(height, pos') < |txids|
    ensures txids[FirstLeaf(height, pos)] == txids[FirstLeaf(height, pos')]
    decreases height
  {
    hide TreeWidth, TreePairs, CalcHash, FirstLeaf, EndLeaf, RightHash;
    NodeIffLeaf(|txids|, height, pos);
    NodeIffLeaf(|txids|, height, pos');
    if height > 0 {
      TreeInner(H, txids, height, pos);
      TreeInner(H, txids, height, pos');
      SamePair(H, pairs, (CalcHash(H, txids, height - 1, 2 * pos), RightHash(H, txids, height, pos)),
               (CalcHash(H, txids, height - 1, 2 * pos'), RightHash(H, txids, height, pos')));
      LeafRanges(|txids|, height, pos);
      LeafRanges(|txids|, height, pos');
      SameHashSameLeaf(H, txids, height - 1, 2 * pos, 2 * pos', pairs);
    } else {
      LeafZero(H, txids, pos);
      LeafZero(H, txids, pos');
    }
  }

  lemma LeafZero(H: Hasher, txids: seq<Digest>, pos: nat)
    requires pos < TreeWidth(|txids|, 0)
    ensures FirstLeaf(0, pos) == pos < |txids| && CalcHash(H, txids, 0, pos) == txids[pos]
  {
    WidthStep(|txids|, 0);
    assert Pow2(0) == 1;
  }

  /** Different transaction ids and no collision: no two children of a node have the same hash. */
  lemma {:induction false} DistinctNoTwins(H: Hasher, txids: seq<Digest>, mask: seq<bool>, height: nat, pos: nat,
                                           pairs: set<(Digest, Digest)>)
    requires |mask| == |txids| && pos < TreeWidth(|txids|, height)
    requires forall i, j | 0 <= i < j < |txids| :: txids[i] != txids[j]
    requires CollisionFree(H, pairs) && TreePairs(H, txids, height, pos) <= pairs
    ensures !TwinsBelow(H, txids, mask, height, pos)
    decreases height
  {
    hide TreeWidth, TreePairs, CalcHash, TwinsBelow, ParentOfMatch, FirstLeaf, EndLeaf;
    if height > 0 && ParentOfMatch(mask, height, pos) {
      TreeInner(H, txids, height, pos);
      TwinsInner(H, txids, mask, height, pos);
      DistinctNoTwins(H, txids, mask, height - 1, 2 * pos, pairs);
      if HasRight(|txids|, height, pos) {
        DistinctNoTwins(H, txids, mask, height - 1, 2 * pos + 1, pairs);
        SiblingLeaves(height, pos);
        if CalcHash(H, txids, height - 1, 2 * pos + 1) == CalcHash(H, txids, height - 1, 2 * pos) {
          SameHashSameLeaf(H, txids, height - 1, 2 * pos, 2 * pos + 1, pairs);
        }
      }
    } else {
      NoTwinsOuter(H, txids, mask, height, pos);
    }
  }

  lemma NoTwinsOuter(H: Hasher, txids: seq<Digest>, mask: seq<bool>, height: nat, pos: nat)
    requires |mask| == |txids| && pos < TreeWidth(|txids|, height) && (height == 0 || !ParentOfMatch(mask, height, pos))
    ensures !TwinsBelow(H, txids, mask, height, pos)
  {
  }

  lemma SiblingLeaves(height: nat, pos: nat)
    requires height > 0
    ensures FirstLeaf(height - 1, 2 * pos) < FirstLeaf(height - 1, 2 * pos + 1)
  {
    assert (2 * pos + 1) * Pow2(height - 1) == 2 * pos * Pow2(height - 1) + Pow2(height - 1);
  }

  /** The pairs hashed to compute the root of a block. */
  ghost function RootPairs(H: Hasher, txids: seq<Digest>): set<(Digest, Digest)>
    requires txids != []
  {
    RootWidth(|txids|);
    TreePairs(H, txids, Height(|txids|), 0)
  }

  /** The round trip for every block: different transaction ids, and no collision among the pairs of its tree. */
  lemma RoundTrip(H: Hasher, txids: seq<Digest>, mask: seq<bool>)
    requires mask != [] && |mask| == |txids| <= MAX_TRANSACTIONS
    requires forall i, j | 0 <= i < j < |txids| :: txids[i] != txids[j]
    requires CollisionFree(H, RootPairs(H, txids))
    ensures ExtractMatches(H, |txids|, BitPacking.Unpack(BitPacking.Pack(TreeBits(mask))), TreeHashes(H, txids, mask))
              == (MerkleRoot(H, txids), Selected(txids, mask, 0, |txids|))
  {
    hide TreeWidth, TreePairs, TwinsBelow, ExtractMatches, Selected, CollisionFree, CalcHash, HeightFrom;
    BuildPackExtract(H, txids, mask);
    RootWidth(|txids|);
    DistinctNoTwins(H, txids, mask, Height(|txids|), 0, TreePairs(H, txids, Height(|txids|), 0));
  }
}
