/** The tree hash and inclusion path of RFC 9162, defined from the root down
    (sections 2.1.1 and 2.1.3.1). */
module MerkleTree {
  import opened Common

  /** Leaf and interior hashes carry different first octets. */
  function LeafPreimage(data: Bytes): Bytes { [0] + data }

  function NodePreimage(left: Digest, right: Digest): Bytes { [1] + left + right }

  function HashLeaf(H: HashFunction, data: Bytes): Digest { H(LeafPreimage(data)) }

  function HashChildren(H: HashFunction, left: Digest, right: Digest): Digest { H(NodePreimage(left, right)) }

  /** The preimage of a parent, seen from one child and its sibling. */
  function ParentPreimage(onRight: bool, mine: Digest, sibling: Digest): Bytes {
    if onRight then NodePreimage(sibling, mine) else NodePreimage(mine, sibling)
  }

  function ParentHash(H: HashFunction, onRight: bool, mine: Digest, sibling: Digest): Digest {
    H(ParentPreimage(onRight, mine, sibling))
  }

  lemma NodePreimageInjective(l: Digest, r: Digest, l': Digest, r': Digest)
    requires NodePreimage(l, r) == NodePreimage(l', r')
    ensures l == l' && r == r'
  {
    assert l == NodePreimage(l, r)[1..33] && l' == NodePreimage(l', r')[1..33];
    assert r == NodePreimage(l, r)[33..] && r' == NodePreimage(l', r')[33..];
  }

  predicate IsPowerOfTwo(k: nat) {
    k == 1 || (k > 1 && k % 2 == 0 && IsPowerOfTwo(k / 2))
  }

  /** The largest power of two below `n`. */
  function Split(n: nat): (k: nat)
    requires n > 1
    ensures 0 < k < n
    ensures IsPowerOfTwo(k) && n <= 2 * k
  {
    if n == 2 then 1 else 2 * Split((n + 1) / 2)
  }

  /** MTH of section 2.1.1. */
  function TreeHash(H: HashFunction, leaves: seq<Bytes>): Digest {
    if leaves == [] then H([])
    else if |leaves| == 1 then HashLeaf(H, leaves[0])
    else
      var k := Split(|leaves|);
      HashChildren(H, TreeHash(H, leaves[..k]), TreeHash(H, leaves[k..]))
  }

  // Leaf `m` of `n > 1` leaves lies in one half of the tree: which half, its
  // index and the size there, and the leaves of that half and of the other.

  predicate OnRight(m: nat, n: nat)
    requires m < n && n > 1
  {
    m >= Split(n)
  }

  function HalfIndex(m: nat, n: nat): nat
    requires m < n && n > 1
  {
    if OnRight(m, n) then m - Split(n) else m
  }

  function HalfSize(m: nat, n: nat): (size: nat)
    requires m < n && n > 1
    ensures HalfIndex(m, n) < size < n
  {
    if OnRight(m, n) then n - Split(n) else Split(n)
  }

  function Half(m: nat, leaves: seq<Bytes>): (half: seq<Bytes>)
    requires m < |leaves| && |leaves| > 1
    ensures |half| == HalfSize(m, |leaves|) && half[HalfIndex(m, |leaves|)] == leaves[m]
  {
    var k := Split(|leaves|);
    if OnRight(m, |leaves|) then leaves[k..] else leaves[..k]
  }

  function OtherHalf(m: nat, leaves: seq<Bytes>): seq<Bytes>
    requires m < |leaves| && |leaves| > 1
  {
    var k := Split(|leaves|);
    if OnRight(m, |leaves|) then leaves[..k] else leaves[k..]
  }

  lemma TreeHashFromHalf(H: HashFunction, m: nat, leaves: seq<Bytes>)
    requires m < |leaves| && |leaves| > 1
    ensures TreeHash(H, leaves)
         == ParentHash(H, OnRight(m, |leaves|), TreeHash(H, Half(m, leaves)), TreeHash(H, OtherHalf(m, leaves)))
  {
  }

  lemma TreeHashOfLeaf(H: HashFunction, leaves: seq<Bytes>)
    requires |leaves| == 1
    ensures TreeHash(H, leaves) == HashLeaf(H, leaves[0])
  {
  }

  /** PATH of section 2.1.3.1: the sibling hashes from the leaf up. */
  function InclusionPath(H: HashFunction, m: nat, leaves: seq<Bytes>): seq<Digest>
    requires m < |leaves|
    decreases |leaves|
  {
    if |leaves| == 1 then []
    else InclusionPath(H, HalfIndex(m, |leaves|), Half(m, leaves)) + [TreeHash(H, OtherHalf(m, leaves))]
  }

  /** The seven leaves of section 2.1.5, all hashes written out, and the paths
      given there: leaves 0, 3, 4 and 6 have the siblings b, h, l; c, g, l;
      f, j, k; and i, k. */
  lemma SevenLeaves(H: HashFunction, d: seq<Bytes>)
    requires |d| == 7
    ensures var a, b, c, c' := H([0] + d[0]), H([0] + d[1]), H([0] + d[2]), H([0] + d[3]);
            var e, f, j := H([0] + d[4]), H([0] + d[5]), H([0] + d[6]);
            var g, h, i := H([1] + a + b), H([1] + c + c'), H([1] + e + f);
            var k, l := H([1] + g + h), H([1] + i + j);
            && TreeHash(H, d) == H([1] + k + l)
            && InclusionPath(H, 0, d) == [b, h, l] && InclusionPath(H, 3, d) == [c, g, l]
            && InclusionPath(H, 4, d) == [f, j, k] && InclusionPath(H, 6, d) == [i, k]
  {
    hide TreeHash, InclusionPath;
    assert Split(7) == 4;
    FourLeaves(H, d[..4]);
    ThreeLeaves(H, d[4..]);
    HashAtSplit(H, d, 4);
    PathOnLeft(H, d, 4, 0);
    PathOnLeft(H, d, 4, 3);
    PathOnRight(H, d, 4, 4);
    PathOnRight(H, d, 4, 6);
    assert d[4..][0] == d[4] && d[4..][1] == d[5] && d[4..][2] == d[6];
  }

  lemma HashAtSplit(H: HashFunction, d: seq<Bytes>, k: nat)
    requires |d| > 1 && k == Split(|d|)
    ensures TreeHash(H, d) == HashChildren(H, TreeHash(H, d[..k]), TreeHash(H, d[k..]))
  {
  }

  lemma PathOnLeft(H: HashFunction, d: seq<Bytes>, k: nat, m: nat)
    requires |d| > 1 && k == Split(|d|) && m < k
    ensures InclusionPath(H, m, d) == InclusionPath(H, m, d[..k]) + [TreeHash(H, d[k..])]
  {
    hide TreeHash, Split;
    assert Half(m, d) == d[..k] && OtherHalf(m, d) == d[k..] && HalfIndex(m, |d|) == m;
    hide Half, OtherHalf, HalfIndex;
  }

  lemma PathOnRight(H: HashFunction, d: seq<Bytes>, k: nat, m: nat)
    requires |d| > 1 && k == Split(|d|) && k <= m < |d|
    ensures InclusionPath(H, m, d) == InclusionPath(H, m - k, d[k..]) + [TreeHash(H, d[..k])]
  {
    hide TreeHash, Split;
    assert Half(m, d) == d[k..] && OtherHalf(m, d) == d[..k] && HalfIndex(m, |d|) == m - k;
    hide Half, OtherHalf, HalfIndex;
  }

  lemma OneLeaf(H: HashFunction, data: Bytes)
    ensures TreeHash(H, [data]) == HashLeaf(H, data) && InclusionPath(H, 0, [data]) == []
  {
  }

  lemma TwoLeaves(H: HashFunction, d: seq<Bytes>)
    requires |d| == 2
    ensures var a, b := HashLeaf(H, d[0]), HashLeaf(H, d[1]);
            TreeHash(H, d) == HashChildren(H, a, b) && InclusionPath(H, 0, d) == [b] && InclusionPath(H, 1, d) == [a]
  {
    assert d[..1] == [d[0]] && d[1..] == [d[1]];
    OneLeaf(H, d[0]);
    OneLeaf(H, d[1]);
    HashAtSplit(H, d, 1);
    PathOnLeft(H, d, 1, 0);
    PathOnRight(H, d, 1, 1);
    hide TreeHash, InclusionPath, HashLeaf, HashChildren;
  }

  lemma ThreeLeaves(H: HashFunction, d: seq<Bytes>)
    requires |d| == 3
    ensures var e, f, j := HashLeaf(H, d[0]), HashLeaf(H, d[1]), HashLeaf(H, d[2]);
            && TreeHash(H, d) == HashChildren(H, HashChildren(H, e, f), j)
            && InclusionPath(H, 0, d) == [f, j] && InclusionPath(H, 2, d) == [HashChildren(H, e, f)]
  {
    assert d[2..] == [d[2]] && Split(3) == 2;
    TwoLeaves(H, d[..2]);
    OneLeaf(H, d[2]);
    HashAtSplit(H, d, 2);
    PathOnLeft(H, d, 2, 0);
    PathOnRight(H, d, 2, 2);
    hide TreeHash, InclusionPath, HashLeaf, HashChildren;
  }

  lemma FourLeaves(H: HashFunction, d: seq<Bytes>)
    requires |d| == 4
    ensures var a, b := HashLeaf(H, d[0]), HashLeaf(H, d[1]);
            var c, c' := HashLeaf(H, d[2]), HashLeaf(H, d[3]);
            && TreeHash(H, d) == HashChildren(H, HashChildren(H, a, b), HashChildren(H, c, c'))
            && InclusionPath(H, 0, d) == [b, HashChildren(H, c, c')]
            && InclusionPath(H, 3, d) == [c, HashChildren(H, a, b)]
  {
    assert Split(4) == 2 && d[2..][0] == d[2] && d[2..][1] == d[3];
    TwoLeaves(H, d[..2]);
    TwoLeaves(H, d[2..]);
    HashAtSplit(H, d, 2);
    PathOnLeft(H, d, 2, 0);
    PathOnRight(H, d, 2, 3);
    hide TreeHash, InclusionPath, HashLeaf, HashChildren;
  }

  /** The number of siblings on the path of leaf `m` in a tree of `n` leaves. */
  function PathLength(m: nat, n: nat): nat
    requires m < n
    decreases n
  {
    if n == 1 then 0 else 1 + PathLength(HalfIndex(m, n), HalfSize(m, n))
  }

  function Below(path: seq<Digest>): seq<Digest>
    requires path != []
  {
    path[..|path| - 1]
  }

  function Top(path: seq<Digest>): Digest
    requires path != []
  {
    path[|path| - 1]
  }

  /** The root a path claims for leaf hash `h`, read from the root down: the
      last path element is the sibling at the top. */
  function ClaimedRoot(H: HashFunction, m: nat, n: nat, h: Digest, path: seq<Digest>): Option<Digest>
    requires m < n
    decreases n
  {
    if n == 1 then (if path == [] then Some(h) else None)
    else if path == [] then None
    else
      match ClaimedRoot(H, HalfIndex(m, n), HalfSize(m, n), h, Below(path))
      case None => None
      case Some(mine) => Some(ParentHash(H, OnRight(m, n), mine, Top(path)))
  }

  lemma SplitBelowPow2(n: nat, d: nat)
    requires 1 < n <= Pow2(d)
    ensures d > 0 && Split(n) <= Pow2(d - 1)
  {
    if n > 2 {
      assert (n + 1) / 2 <= Pow2(d - 1);
      SplitBelowPow2((n + 1) / 2, d - 1);
    }
  }

  /** A path is never longer than the base-two logarithm of the tree size, rounded up. */
  lemma {:induction false} PathLengthLogarithmic(m: nat, n: nat, d: nat)
    requires m < n <= Pow2(d)
    ensures PathLength(m, n) <= d
    decreases n
  {
    if n > 1 {
      SplitBelowPow2(n, d);
      PathLengthLogarithmic(HalfIndex(m, n), HalfSize(m, n), d - 1);
    }
  }

  /** Whether a path yields a root depends on its length alone, never on a hash. */
  lemma {:induction false} ClaimedRootShape(H: HashFunction, m: nat, n: nat, h: Digest, path: seq<Digest>)
    requires m < n
    ensures ClaimedRoot(H, m, n, h, path).Some? <==> |path| == PathLength(m, n)
    decreases n
  {
    if n > 1 && path != [] {
      ClaimedRootShape(H, HalfIndex(m, n), HalfSize(m, n), h, Below(path));
    }
  }

  /** Completeness: the honest path of every leaf yields the tree hash. */
  lemma {:induction false} HonestPathYieldsRoot(H: HashFunction, m: nat, leaves: seq<Bytes>)
    requires m < |leaves|
    ensures ClaimedRoot(H, m, |leaves|, HashLeaf(H, leaves[m]), InclusionPath(H, m, leaves))
              == Some(TreeHash(H, leaves))
    decreases |leaves|
  {
    if |leaves| > 1 {
      var i, half := HalfIndex(m, |leaves|), Half(m, leaves);
      HonestPathYieldsRoot(H, i, half);
      TreeHashFromHalf(H, m, leaves);
      assert Below(InclusionPath(H, m, leaves)) == InclusionPath(H, i, half);
    }
  }

  /** Follows a claimed path beside the honest one and returns the two
      preimages at the highest node where they part. */
  function PathCollision(H: HashFunction, m: nat, leaves: seq<Bytes>, h: Digest,
                         path: seq<Digest>): Option<(Bytes, Bytes)>
    requires m < |leaves| && |path| == PathLength(m, |leaves|)
    decreases |leaves|
  {
    if |leaves| == 1 then None
    else
      var n, i, half, onRight := |leaves|, HalfIndex(m, |leaves|), Half(m, leaves), OnRight(m, |leaves|);
      ClaimedRootShape(H, i, |half|, h, Below(path));
      var claimed := ParentPreimage(onRight, ClaimedRoot(H, i, |half|, h, Below(path)).value, Top(path));
      var honest := ParentPreimage(onRight, TreeHash(H, half), TreeHash(H, OtherHalf(m, leaves)));
      if claimed != honest then Some((claimed, honest)) else PathCollision(H, i, half, h, Below(path))
  }

  /** One level of soundness: equal parents have equal children, or their preimages collide. */
  lemma ParentsAgree(H: HashFunction, onRight: bool, mine: Digest, sibling: Digest, mine': Digest, sibling': Digest)
    requires ParentHash(H, onRight, mine, sibling) == ParentHash(H, onRight, mine', sibling')
    ensures var p, p' := ParentPreimage(onRight, mine, sibling), ParentPreimage(onRight, mine', sibling');
            if p == p' then mine == mine' && sibling == sibling' else IsCollision(H, (p, p'))
  {
    if ParentPreimage(onRight, mine, sibling) == ParentPreimage(onRight, mine', sibling') {
      if onRight {
        NodePreimageInjective(sibling, mine, sibling', mine');
      } else {
        NodePreimageInjective(mine, sibling, mine', sibling');
      }
    }
  }

  /** Soundness: a path that yields the tree hash is the honest path of the
      honest leaf hash, or `PathCollision` returns a collision of the hash. */
  lemma {:induction false} PathSound(H: HashFunction, m: nat, leaves: seq<Bytes>, h: Digest, path: seq<Digest>)
    requires m < |leaves|
    requires ClaimedRoot(H, m, |leaves|, h, path) == Some(TreeHash(H, leaves))
    ensures |path| == PathLength(m, |leaves|)
    ensures match PathCollision(H, m, leaves, h, path)
            case Some(pair) => IsCollision(H, pair)
            case None => h == HashLeaf(H, leaves[m]) && path == InclusionPath(H, m, leaves)
    decreases |leaves|
  {
    hide TreeHash, IsPowerOfTwo, Split, NodePreimage, ParentPreimage, OnRight, Half, OtherHalf, HalfIndex, HalfSize;
    ClaimedRootShape(H, m, |leaves|, h, path);
    if |leaves| > 1 {
      var i, half, other := HalfIndex(m, |leaves|), Half(m, leaves), TreeHash(H, OtherHalf(m, leaves));
      var claimed := ClaimedRoot(H, i, |half|, h, Below(path)).value;
      TreeHashFromHalf(H, m, leaves);
      ParentsAgree(H, OnRight(m, |leaves|), claimed, Top(path), TreeHash(H, half), other);
      if claimed == TreeHash(H, half) && Top(path) == other {
        PathSound(H, i, half, h, Below(path));
        assert path == Below(path) + [Top(path)];
      }
    } else {
      assert TreeHash(H, leaves) == HashLeaf(H, leaves[m]) by { TreeHashOfLeaf(H, leaves); }
    }
  }

  function RootPreimage(H: HashFunction, leaves: seq<Bytes>): (preimage: Bytes)
    ensures H(preimage) == TreeHash(H, leaves)
  {
    if leaves == [] then []
    else if |leaves| == 1 then LeafPreimage(leaves[0])
    else
      var k := Split(|leaves|);
      NodePreimage(TreeHash(H, leaves[..k]), TreeHash(H, leaves[k..]))
  }

  /** Descends two trees together and returns the first pair of preimages that differ. */
  function RootCollision(H: HashFunction, a: seq<Bytes>, b: seq<Bytes>): Option<(Bytes, Bytes)> {
    var pa, pb := RootPreimage(H, a), RootPreimage(H, b);
    if pa != pb then Some((pa, pb))
    else if |a| <= 1 || |b| <= 1 then None
    else
      var j, k := Split(|a|), Split(|b|);
      match RootCollision(H, a[..j], b[..k])
      case Some(pair) => Some(pair)
      case None => RootCollision(H, a[j..], b[k..])
  }

  /** The first octet separates leaves from interior nodes, and both from the empty tree. */
  lemma SmallRootPreimageBinds(H: HashFunction, a: seq<Bytes>, b: seq<Bytes>)
    requires RootPreimage(H, a) == RootPreimage(H, b) && (|a| <= 1 || |b| <= 1)
    ensures a == b
  {
    assert a != [] ==> RootPreimage(H, a)[0] == if |a| == 1 then 0 else 1;
    assert b != [] ==> RootPreimage(H, b)[0] == if |b| == 1 then 0 else 1;
    assert |a| == |b|;
    if |a| == 1 {
      assert a[0] == RootPreimage(H, a)[1..] && b[0] == RootPreimage(H, b)[1..];
    }
  }

  /** A tree hash binds the number of leaves and every leaf, or `RootCollision`
      returns a collision. */
  lemma {:induction false} TreeHashBinds(H: HashFunction, a: seq<Bytes>, b: seq<Bytes>)
    requires TreeHash(H, a) == TreeHash(H, b)
    ensures match RootCollision(H, a, b)
            case Some(pair) => IsCollision(H, pair)
            case None => a == b
    decreases |a|
  {
    hide TreeHash, RootPreimage, IsPowerOfTwo;
    if RootPreimage(H, a) == RootPreimage(H, b) {
      if |a| <= 1 || |b| <= 1 {
        SmallRootPreimageBinds(H, a, b);
      } else {
        var j, k := Split(|a|), Split(|b|);
        HalvesAgree(H, a, b);
        TreeHashBinds(H, a[..j], b[..k]);
        TreeHashBinds(H, a[j..], b[k..]);
        assert a == a[..j] + a[j..] && b == b[..k] + b[k..];
      }
    }
  }

  lemma HalvesAgree(H: HashFunction, a: seq<Bytes>, b: seq<Bytes>)
    requires RootPreimage(H, a) == RootPreimage(H, b) && |a| > 1 && |b| > 1
    ensures TreeHash(H, a[..Split(|a|)]) == TreeHash(H, b[..Split(|b|)])
    ensures TreeHash(H, a[Split(|a|)..]) == TreeHash(H, b[Split(|b|)..])
  {
    hide TreeHash;
    var j, k := Split(|a|), Split(|b|);
    NodePreimageInjective(TreeHash(H, a[..j]), TreeHash(H, a[j..]), TreeHash(H, b[..k]), TreeHash(H, b[k..]));
  }
}

/** `rootFromInclusion`: the same root computed from the leaf up, by shifting
    the index and the last index right. */
module InclusionVerifier {
  import opened Common
  import opened MerkleTree

  /** One level up: node `m` of `n` becomes node `m / 2` of `ceil(n / 2)`. It
      absorbs a path element exactly when it has a sibling. */
  function LevelUp(H: HashFunction, m: nat, n: nat, h: Digest, path: seq<Digest>): Option<Digest>
    requires m < n && n > 1
  {
    if m % 2 == 0 && m == n - 1 then ClaimedRoot(H, m / 2, (n + 1) / 2, h, path)
    else if path == [] then None
    else ClaimedRoot(H, m / 2, (n + 1) / 2, ParentHash(H, m % 2 == 1, h, path[0]), path[1..])
  }

  lemma HalvesCommute(m: nat, n: nat)
    requires m < n && n > 2
    ensures var m', n' := m / 2, (n + 1) / 2;
            && OnRight(m, n) == OnRight(m', n')
            && HalfIndex(m, n) % 2 == m % 2
            && HalfIndex(m', n') == HalfIndex(m, n) / 2
            && HalfSize(m', n') == (HalfSize(m, n) + 1) / 2
            && (HalfIndex(m, n) == HalfSize(m, n) - 1 && m % 2 == 0 <==> m == n - 1 && m % 2 == 0)
  {
    assert Split(n) == 2 * Split((n + 1) / 2);
  }

  /** Halving both the index and the size leaves the claimed root unchanged. */
  lemma {:induction false} LevelUpKeepsRoot(H: HashFunction, m: nat, n: nat, h: Digest, path: seq<Digest>)
    requires m < n && n > 1
    ensures ClaimedRoot(H, m, n, h, path) == LevelUp(H, m, n, h, path)
    decreases n
  {
    if n > 2 && path != [] {
      HalvesCommute(m, n);
      hide OnRight, HalfIndex, HalfSize;
      var below := Below(path);
      assert |path| > 1 ==> below[0] == path[0] && below[1..] == Below(path[1..]);
      if HalfSize(m, n) > 1 { LevelUpKeepsRoot(H, HalfIndex(m, n), HalfSize(m, n), h, below); }
    }
  }

  // The same step in the verifier's own terms, an index and the last index.

  /** The root claimed by the rest of the path from node `index` of `0..last`. */
  function Pending(H: HashFunction, index: nat, last: nat, seed: Digest, rest: seq<Digest>): Option<Digest>
    requires index <= last
  {
    ClaimedRoot(H, index, last + 1, seed, rest)
  }

  lemma HalveLone(H: HashFunction, index: nat, last: nat, seed: Digest, rest: seq<Digest>)
    requires 0 < index == last && index % 2 == 0
    ensures Pending(H, index, last, seed, rest) == Pending(H, index / 2, last / 2, seed, rest)
  {
    LevelUpKeepsRoot(H, index, last + 1, seed, rest);
  }

  lemma HalveRight(H: HashFunction, index: nat, last: nat, seed: Digest, rest: seq<Digest>)
    requires index <= last && index % 2 == 1 && rest != []
    ensures Pending(H, index, last, seed, rest)
         == Pending(H, index / 2, last / 2, HashChildren(H, rest[0], seed), rest[1..])
  {
    LevelUpKeepsRoot(H, index, last + 1, seed, rest);
  }

  lemma HalveLeft(H: HashFunction, index: nat, last: nat, seed: Digest, rest: seq<Digest>)
    requires index < last && index % 2 == 0 && rest != []
    ensures Pending(H, index, last, seed, rest)
         == Pending(H, index / 2, last / 2, HashChildren(H, seed, rest[0]), rest[1..])
  {
    LevelUpKeepsRoot(H, index, last + 1, seed, rest);
  }

  lemma PathExhausted(H: HashFunction, index: nat, last: nat, seed: Digest, rest: seq<Digest>)
    requires index <= last && last > 0 && rest == []
    ensures Pending(H, index, last, seed, rest) == None
  {
  }

  lemma AtRoot(H: HashFunction, seed: Digest, rest: seq<Digest>)
    ensures Pending(H, 0, 0, seed, rest) == if rest == [] then Some(seed) else None
  {
  }

  /** What `rootFromInclusion` must return: the claimed root, or nothing for an
      index outside the tree or for arguments that are not integers. */
  function ExpectedRoot(H: HashFunction, leafIndex: JsNumber, treeSize: JsNumber, h: Digest,
                        proof: seq<Digest>): Option<Digest> {
    if leafIndex.Integer? && treeSize.Integer? && 0 <= leafIndex.value < treeSize.value
    then ClaimedRoot(H, leafIndex.value, treeSize.value, h, proof)
    else None
  }

  /** The verifier answers exactly when the index lies in the tree and the
      proof has the one length that position requires. */
  lemma AnswerShape(H: HashFunction, leafIndex: JsNumber, treeSize: JsNumber, h: Digest, proof: seq<Digest>)
    ensures ExpectedRoot(H, leafIndex, treeSize, h, proof).Some?
       <==> && leafIndex.Integer? && treeSize.Integer? && 0 <= leafIndex.value < treeSize.value
            && |proof| == PathLength(leafIndex.value, treeSize.value)
  {
    if leafIndex.Integer? && treeSize.Integer? && 0 <= leafIndex.value < treeSize.value {
      ClaimedRootShape(H, leafIndex.value, treeSize.value, h, proof);
    }
  }

  /** The preimages that collide when a proof accepts other data than leaf `m`. */
  function InclusionCollision(H: HashFunction, m: nat, leaves: seq<Bytes>, data: Bytes,
                              proof: seq<Digest>): Option<(Bytes, Bytes)>
    requires m < |leaves| && |proof| == PathLength(m, |leaves|)
  {
    match PathCollision(H, m, leaves, HashLeaf(H, data), proof)
    case Some(pair) => Some(pair)
    case None => if data == leaves[m] then None else Some((LeafPreimage(data), LeafPreimage(leaves[m])))
  }

  /** A proof that reaches the root of a tree shows the very data stored at that
      index, and for that data the honest path is the only proof. */
  lemma AcceptedProofShowsLeaf(H: HashFunction, m: nat, leaves: seq<Bytes>, data: Bytes, proof: seq<Digest>)
    requires m < |leaves|
    requires ExpectedRoot(H, Integer(m), Integer(|leaves|), HashLeaf(H, data), proof) == Some(TreeHash(H, leaves))
    ensures |proof| == PathLength(m, |leaves|)
    ensures match InclusionCollision(H, m, leaves, data, proof)
            case Some(pair) => IsCollision(H, pair)
            case None => data == leaves[m] && proof == InclusionPath(H, m, leaves)
  {
    hide TreeHash, InclusionPath, PathCollision, ClaimedRoot;
    PathSound(H, m, leaves, HashLeaf(H, data), proof);
    assert data == LeafPreimage(data)[1..] && leaves[m] == LeafPreimage(leaves[m])[1..];
  }

  /** `rootFromInclusion`: the two nested shift loops. `rest` is the part of the
      proof not yet absorbed; the root it claims never changes. */
  method RootFromInclusion(H: HashFunction, leafIndex: JsNumber, treeSize: JsNumber, leafHash: Digest,
                           proof: seq<Digest>)
    returns (root: Option<Digest>)
    ensures root == ExpectedRoot(H, leafIndex, treeSize, leafHash, proof)
  {
    if !leafIndex.Integer? || !treeSize.Integer?
       || leafIndex.value < 0 || treeSize.value <= 0 || leafIndex.value >= treeSize.value
    {
      return None;
    }
    var seed, index, last, p := leafHash, leafIndex.value, treeSize.value - 1, 0;
    ghost var goal, rest := Pending(H, index, last, seed, proof), proof;
    hide Pending, ClaimedRoot, HashChildren;
    assert proof[0..] == proof;
    while last != 0
      invariant 0 <= index <= last && 0 <= p <= |proof|
      invariant rest == proof[p..] && Pending(H, index, last, seed, rest) == goal
      decreases last
    {
      if p >= |proof| {
        PathExhausted(H, index, last, seed, rest);
        return None;
      }
      ghost var before, last0 := seed, last;
      if index % 2 == 1 || index == last {
        seed := HashChildren(H, proof[p], seed);
        p := p + 1;
        while index % 2 == 0 && index != 0
          invariant 0 < index <= last <= last0 && (index % 2 == 1 || index == last)
          invariant Pending(H, index, last, before, rest) == goal
          decreases index
        {
          HalveLone(H, index, last, before, rest);
          index, last := index / 2, last / 2;
        }
        HalveRight(H, index, last, before, rest);
      } else {
        HalveLeft(H, index, last, seed, rest);
        seed := HashChildren(H, seed, proof[p]);
        p := p + 1;
      }
      index, last := index / 2, last / 2;
      rest := rest[1..];
    }
    AtRoot(H, seed, rest);
    if p != |proof| { return None; }
    return Some(seed);
  }
}
