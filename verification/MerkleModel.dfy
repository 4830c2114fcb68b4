/**
 Partial Merkle trees: the hash tree over a list of transaction ids, the
 depth-first encoding of the part that proves a selection of them, and its
 decoding.  The hash of a pair of digests is an arbitrary function.
 */
module MerkleModel {
  import opened Arithmetic

  type Digest = nat

  /** The null digest, which also signals failure. */
  const NULL_DIGEST: Digest := 0

  function Pow2(n: nat): (r: nat)
    ensures r >= 1
  {
    PowPositive(2, n);
    Pow(2, n)
  }

  /** The number of nodes at a height of the tree over n leaves. */
  function TreeWidth(n: nat, height: nat): nat {
    (n + Pow2(height) - 1) / Pow2(height)
  }

  /** Each level has half as many nodes as the one below, rounded up. */
  lemma WidthStep(n: nat, height: nat)
    ensures TreeWidth(n, 0) == n
    ensures TreeWidth(n, height + 1) == (TreeWidth(n, height) + 1) / 2
  {
    var p := Pow2(height);
    var q := TreeWidth(n, height);
    var r := (n + p - 1) % p;
    assert n + p - 1 == q * p + r;
    HalfWidth(n, p, q, r);
  }

  lemma HalfWidth(n: nat, p: nat, q: nat, r: nat)
    requires p >= 1 && n + p - 1 == q * p + r && r < p
    ensures (n + 2 * p - 1) / (2 * p) == (q + 1) / 2
  {
    var k := (q + 1) / 2;
    var e := (q + 1) % 2;
    assert n + 2 * p - 1 == (q + 1) * p + r;
    assert (q + 1) * p == (2 * p) * k + e * p by { assert q + 1 == 2 * k + e; }
    MulGrows(p, e);
    DivUnique(n + 2 * p - 1, 2 * p, k, e * p + r);
  }

  /** A node and its children: the left one always exists, the right one may not. */
  lemma Children(n: nat, height: nat, pos: nat)
    requires height > 0 && pos < TreeWidth(n, height)
    ensures 2 * pos < TreeWidth(n, height - 1)
  {
    WidthStep(n, height - 1);
    hide TreeWidth;
  }

  predicate HasRight(n: nat, height: nat, pos: nat)
    requires height > 0
  {
    2 * pos + 1 < TreeWidth(n, height - 1)
  }

  /** The height of the tree: the lowest level with at most one node. */
  function HeightFrom(n: nat, h: nat): (r: nat)
    ensures r >= h && TreeWidth(n, r) <= 1
    decreases TreeWidth(n, h)
  {
    WidthStep(n, h);
    if TreeWidth(n, h) <= 1 then h else HeightFrom(n, h + 1)
  }

  function Height(n: nat): nat { HeightFrom(n, 0) }

  lemma {:induction false} RootExists(n: nat, h: nat)
    requires n > 0 && TreeWidth(n, h) > 0
    ensures TreeWidth(n, HeightFrom(n, h)) == 1
    decreases TreeWidth(n, h)
  {
    WidthStep(n, h);
    if TreeWidth(n, h) > 1 {
      RootExists(n, h + 1);
    }
  }

  /** The hash of a node; a node without a right child counts its left child twice. */
  function CalcHash(H: (Digest, Digest) -> Digest, txids: seq<Digest>, height: nat, pos: nat): Digest
    requires pos < TreeWidth(|txids|, height)
    decreases height
  {
    if height == 0 then
      WidthStep(|txids|, 0);
      txids[pos]
    else
      Children(|txids|, height, pos);
      var left := CalcHash(H, txids, height - 1, 2 * pos);
      var right := if HasRight(|txids|, height, pos) then CalcHash(H, txids, height - 1, 2 * pos + 1) else left;
      H(left, right)
  }

  // ----------------------------------------------------------------- encoding

  /** The first leaf below a node, and the end of the leaves below it. */
  function FirstLeaf(height: nat, pos: nat): nat { pos * Pow2(height) }

  function EndLeaf(n: nat, height: nat, pos: nat): nat {
    if (pos + 1) * Pow2(height) < n then (pos + 1) * Pow2(height) else n
  }

  predicate AnyMatch(mask: seq<bool>, lo: nat, hi: nat)
    requires hi <= |mask|
  {
    exists p :: lo <= p < hi && mask[p]
  }

  /** Whether a node is the parent of a selected leaf. */
  predicate ParentOfMatch(mask: seq<bool>, height: nat, pos: nat) {
    AnyMatch(mask, FirstLeaf(height, pos), EndLeaf(|mask|, height, pos))
  }

  /** The flag bits of a subtree, depth first. */
  function BuildBits(mask: seq<bool>, height: nat, pos: nat): seq<bool>
    requires pos < TreeWidth(|mask|, height)
    decreases height
  {
    var f := ParentOfMatch(mask, height, pos);
    if height == 0 || !f then [f] else
    Children(|mask|, height, pos);
    [f] + BuildBits(mask, height - 1, 2 * pos)
    + if HasRight(|mask|, height, pos) then BuildBits(mask, height - 1, 2 * pos + 1) else []
  }

  /** The hashes of a subtree, depth first. */
  function BuildHashes(H: (Digest, Digest) -> Digest, txids: seq<Digest>, mask: seq<bool>, height: nat,
                       pos: nat): seq<Digest>
    requires |mask| == |txids| && pos < TreeWidth(|txids|, height)
    decreases height
  {
    var f := ParentOfMatch(mask, height, pos);
    if height == 0 || !f then [CalcHash(H, txids, height, pos)] else
    Children(|mask|, height, pos);
    BuildHashes(H, txids, mask, height - 1, 2 * pos)
    + if HasRight(|mask|, height, pos) then BuildHashes(H, txids, mask, height - 1, 2 * pos + 1) else []
  }

  // ----------------------------------------------------------------- decoding

  /** What a traversal returns, with the cursors after it, the reported leaves and the pairs it hashed. */
  datatype Extraction = Extraction(
    hash: Digest, bitsUsed: nat, hashUsed: nat, bad: bool, matches: seq<(nat, Digest)>, pairs: seq<(Digest, Digest)>)

  function Extract(H: (Digest, Digest) -> Digest, n: nat, bits: seq<bool>, hashes: seq<Digest>,
                   height: nat, pos: nat, bitsUsed: nat, hashUsed: nat): Extraction
    decreases height
  {
    if bitsUsed >= |bits| then Extraction(NULL_DIGEST, bitsUsed, hashUsed, true, [], []) else
    var f := bits[bitsUsed];
    if height == 0 || !f then
      if hashUsed >= |hashes| then Extraction(NULL_DIGEST, bitsUsed + 1, hashUsed, true, [], []) else
      var hash := hashes[hashUsed];
      Extraction(hash, bitsUsed + 1, hashUsed + 1, false, if height == 0 && f then [(pos, hash)] else [], [])
    else
      var l := Extract(H, n, bits, hashes, height - 1, 2 * pos, bitsUsed + 1, hashUsed);
      if HasRight(n, height, pos) then
        var r := Extract(H, n, bits, hashes, height - 1, 2 * pos + 1, l.bitsUsed, l.hashUsed);
        Extraction(H(l.hash, r.hash), r.bitsUsed, r.hashUsed, l.bad || r.bad || r.hash == l.hash,
                   l.matches + r.matches, l.pairs + r.pairs + [(l.hash, r.hash)])
      else
        Extraction(H(l.hash, l.hash), l.bitsUsed, l.hashUsed, l.bad, l.matches, l.pairs + [(l.hash, l.hash)])
  }

  const MAX_TRANSACTIONS: nat := 2000000 / 60

  /** Whether the sizes of a tree rule it out before the traversal. */
  predicate Rejected(n: nat, bits: seq<bool>, hashes: seq<Digest>) {
    n == 0 || n > MAX_TRANSACTIONS || |hashes| > n || |bits| < |hashes|
  }

  /** The root a partial tree proves, or the null digest, and the leaves it reports. */
  function ExtractMatches(H: (Digest, Digest) -> Digest, n: nat, bits: seq<bool>, hashes: seq<Digest>): (Digest,
                          seq<(nat, Digest)>) {
    if Rejected(n, bits, hashes) then (NULL_DIGEST, []) else
    var e := Extract(H, n, bits, hashes, Height(n), 0, 0, 0);
    var ok := !e.bad && (e.bitsUsed + 7) / 8 == (|bits| + 7) / 8 && e.hashUsed == |hashes|;
    (if ok then e.hash else NULL_DIGEST, e.matches)
  }
}
