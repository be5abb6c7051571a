/**
 * The RFC 9162 section 2.1 tree: heads, paths and subproofs as recursions over
 * the entries, and what a list of siblings climbing to a head determines.
 *
 * The hash is an arbitrary function with 32-byte values. No injectivity is
 * assumed: soundness statements exhibit two inputs with one hash instead.
 */
module MerkleTree {
  import opened Bytes

  type Digest = d: bytes | |d| == 32 witness Zeros(32)
  type Sha = bytes -> Digest

  function HashLeaf(sha: Sha, data: bytes): Digest { sha([0] + data) }

  function HashPair(sha: Sha, left: Digest, right: Digest): Digest { sha([1] + left + right) }

  function EmptyRoot(sha: Sha): Digest { sha([]) }

  /** Two different inputs of the hash with one value. */
  predicate IsCollision(sha: Sha, pair: (bytes, bytes)) {
    pair.0 != pair.1 && sha(pair.0) == sha(pair.1)
  }

  // ---- powers of two -------------------------------------------------------

  predicate PowerOfTwo(k: int)
    decreases k
  {
    k == 1 || (k >= 2 && k % 2 == 0 && PowerOfTwo(k / 2))
  }

  /** The halving test finds exactly the powers of two. */
  lemma {:induction false} PowerOfTwoIsPow2(m: int)
    ensures PowerOfTwo(m) <==> exists h: nat :: m == Pow2(h)
  {
    hide PowerOfTwo, Pow2;
    if PowerOfTwo(m) {
      var h := Exponent(m);
    }
    if h: nat :| m == Pow2(h) {
      Pow2IsPowerOfTwo(h);
    }
  }

  lemma {:induction false} Exponent(m: int) returns (h: nat)
    requires PowerOfTwo(m)
    ensures m == Pow2(h)
    decreases m
  {
    if m == 1 {
      h := 0;
    } else {
      var half := Exponent(m / 2);
      h := half + 1;
    }
  }

  lemma {:induction false} Pow2IsPowerOfTwo(h: nat)
    ensures PowerOfTwo(Pow2(h))
  {
    if h != 0 {
      Pow2IsPowerOfTwo(h - 1);
      assert Pow2(h) / 2 == Pow2(h - 1);
    }
  }

  /** The largest power of two not above s. */
  function TopBit(s: nat): (k: nat)
    requires s >= 1
    ensures k <= s < 2 * k
  {
    if s == 1 then 1 else 2 * TopBit(s / 2)
  }

  /** Where a tree of n leaves splits: the largest power of two below n. */
  function Split(n: nat): (k: nat)
    requires n >= 2
    ensures 1 <= k < n <= 2 * k
  {
    TopBit(n - 1)
  }

  lemma {:induction false} TopBitIsPowerOfTwo(s: nat)
    requires s >= 1
    ensures PowerOfTwo(TopBit(s))
  {
    if s > 1 {
      TopBitIsPowerOfTwo(s / 2);
    }
  }

  lemma {:induction false} SplitIsPowerOfTwo(n: nat)
    requires n >= 2
    ensures PowerOfTwo(Split(n))
  {
    TopBitIsPowerOfTwo(n - 1);
  }

  lemma {:induction false} TopBitUnique(k: nat, s: nat)
    requires PowerOfTwo(k) && k <= s < 2 * k
    ensures k == TopBit(s)
  {
    if s > 1 {
      TopBitUnique(k / 2, s / 2);
    }
  }

  // ---- generators ----------------------------------------------------------

  /** RFC 9162 section 2.1.1, on the list itself. */
  function Mth(sha: Sha, d: seq<bytes>): Digest {
    if |d| == 0 then EmptyRoot(sha)
    else if |d| == 1 then HashLeaf(sha, d[0])
    else
      var k := Split(|d|);
      HashPair(sha, Mth(sha, d[..k]), Mth(sha, d[k..]))
  }

  /** RFC 9162 section 2.1.3.1: PATH(index, d), deepest sibling first. */
  function Path(sha: Sha, d: seq<bytes>, index: nat): seq<Digest>
    requires index < |d|
    decreases |d|
  {
    if |d| == 1 then []
    else
      var k := Split(|d|);
      if index < k then Path(sha, d[..k], index) + [Mth(sha, d[k..])]
      else Path(sha, d[k..], index - k) + [Mth(sha, d[..k])]
  }

  /** RFC 9162 section 2.1.4.1: SUBPROOF(m, d, known). */
  function Subproof(sha: Sha, d: seq<bytes>, m: nat, known: bool): seq<Digest>
    requires 0 < m <= |d|
    decreases |d|
  {
    if m == |d| then
      if known then [] else [Mth(sha, d)]
    else
      var k := Split(|d|);
      if m <= k then Subproof(sha, d[..k], m, known) + [Mth(sha, d[k..])]
      else Subproof(sha, d[k..], m - k, false) + [Mth(sha, d[..k])]
  }

  // ---- the code's own index-range recursions -------------------------------

  /** merkle/index.js mthRange. */
  function MthRange(sha: Sha, entries: seq<bytes>, start: nat, end: nat): Digest
    requires start <= end <= |entries|
    decreases end - start
  {
    var n := end - start;
    if n == 0 then EmptyRoot(sha)
    else if n == 1 then HashLeaf(sha, entries[start])
    else
      var k := Split(n);
      HashPair(sha, MthRange(sha, entries, start, start + k), MthRange(sha, entries, start + k, end))
  }

  /** merkle/index.js pathRange. */
  function PathRange(sha: Sha, entries: seq<bytes>, start: nat, end: nat, index: nat): seq<Digest>
    requires start <= index < end <= |entries|
    decreases end - start
  {
    var size := end - start;
    if size == 1 then []
    else
      var k := Split(size);
      if index - start < k then
        PathRange(sha, entries, start, start + k, index) + [MthRange(sha, entries, start + k, end)]
      else
        PathRange(sha, entries, start + k, end, index) + [MthRange(sha, entries, start, start + k)]
  }

  /** merkle/index.js subproof. */
  function SubproofRange(sha: Sha, entries: seq<bytes>, start: nat, end: nat, m: nat, known: bool): seq<Digest>
    requires start <= end <= |entries| && 0 < m <= end - start
    decreases end - start
  {
    var size := end - start;
    if m == size then
      if known then [] else [MthRange(sha, entries, start, end)]
    else
      var k := Split(size);
      if m <= k then
        SubproofRange(sha, entries, start, start + k, m, known) + [MthRange(sha, entries, start + k, end)]
      else
        SubproofRange(sha, entries, start + k, end, m - k, false) + [MthRange(sha, entries, start, start + k)]
  }

  lemma {:induction false} MthNode(sha: Sha, d: seq<bytes>, k: nat)
    requires |d| >= 2 && k == Split(|d|)
    ensures Mth(sha, d) == HashPair(sha, Mth(sha, d[..k]), Mth(sha, d[k..]))
  {
    hide Split;
  }

  lemma {:induction false} MthRangeNode(sha: Sha, entries: seq<bytes>, start: nat, end: nat, k: nat)
    requires start + 2 <= end <= |entries| && k == Split(end - start)
    ensures MthRange(sha, entries, start, end)
         == HashPair(sha, MthRange(sha, entries, start, start + k), MthRange(sha, entries, start + k, end))
  {
    hide Split;
  }

  lemma {:induction false} MthSmall(sha: Sha, entries: seq<bytes>, start: nat, end: nat)
    requires start <= end <= |entries| && end - start < 2
    ensures MthRange(sha, entries, start, end) == Mth(sha, entries[start..end])
  {
  }

  /** The two halves of a slice, as slices of the whole list. */
  lemma {:induction false} Halves<T(!new)>(entries: seq<T>, start: nat, end: nat, k: nat)
    requires start + k <= end <= |entries|
    ensures entries[start..end][..k] == entries[start..start + k]
    ensures entries[start..end][k..] == entries[start + k..end]
  {
  }

  lemma {:induction false} MthRangeIsMth(sha: Sha, entries: seq<bytes>, start: nat, end: nat)
    requires start <= end <= |entries|
    ensures MthRange(sha, entries, start, end) == Mth(sha, entries[start..end])
    decreases end - start
  {
    hide Split, Mth, MthRange;
    var n, d := end - start, entries[start..end];
    if n < 2 {
      MthSmall(sha, entries, start, end);
    } else {
      var k := Split(n);
      MthNode(sha, d, k);
      MthRangeNode(sha, entries, start, end, k);
      Halves(entries, start, end, k);
      MthRangeIsMth(sha, entries, start, start + k);
      MthRangeIsMth(sha, entries, start + k, end);
    }
  }

  /** One level of pathRange and of PATH on the slice it covers. */
  lemma {:induction false} PathLevel(sha: Sha, entries: seq<bytes>, start: nat, end: nat, index: nat)
    requires start <= index < end <= |entries|
    ensures end - start == 1 ==>
              PathRange(sha, entries, start, end, index) == [] == Path(sha, entries[start..end], index - start)
    ensures end - start > 1 ==>
              var k, d := Split(end - start), entries[start..end];
              if index - start < k then
                && PathRange(sha, entries, start, end, index)
                   == PathRange(sha, entries, start, start + k, index) + [MthRange(sha, entries, start + k, end)]
                && Path(sha, d, index - start) == Path(sha, d[..k], index - start) + [Mth(sha, d[k..])]
              else
                && PathRange(sha, entries, start, end, index)
                   == PathRange(sha, entries, start + k, end, index) + [MthRange(sha, entries, start, start + k)]
                && Path(sha, d, index - start) == Path(sha, d[k..], index - start - k) + [Mth(sha, d[..k])]
  {
    hide Split, Mth, MthRange;
  }

  lemma {:induction false} PathRangeIsPath(sha: Sha, entries: seq<bytes>, start: nat, end: nat, index: nat)
    requires start <= index < end <= |entries|
    ensures PathRange(sha, entries, start, end, index) == Path(sha, entries[start..end], index - start)
    decreases end - start
  {
    hide Split, Mth, MthRange, Path, PathRange;
    var n, d := end - start, entries[start..end];
    PathLevel(sha, entries, start, end, index);
    if n >= 2 {
      var k := Split(n);
      Halves(entries, start, end, k);
      if index - start < k {
        MthRangeIsMth(sha, entries, start + k, end);
        PathRangeIsPath(sha, entries, start, start + k, index);
      } else {
        MthRangeIsMth(sha, entries, start, start + k);
        PathRangeIsPath(sha, entries, start + k, end, index);
      }
    }
  }

  /** One level of the code's subproof and of SUBPROOF on the slice it covers. */
  lemma {:induction false} SubproofLevel(
    sha: Sha, entries: seq<bytes>, start: nat, end: nat, m: nat, known: bool)
    requires start <= end <= |entries| && 0 < m <= end - start
    ensures m == end - start ==>
              && SubproofRange(sha, entries, start, end, m, known)
                 == (if known then [] else [MthRange(sha, entries, start, end)])
              && Subproof(sha, entries[start..end], m, known)
                 == (if known then [] else [Mth(sha, entries[start..end])])
    ensures m < end - start ==>
              var k, d := Split(end - start), entries[start..end];
              if m <= k then
                && SubproofRange(sha, entries, start, end, m, known)
                   == SubproofRange(sha, entries, start, start + k, m, known) + [MthRange(sha, entries, start + k, end)]
                && Subproof(sha, d, m, known) == Subproof(sha, d[..k], m, known) + [Mth(sha, d[k..])]
              else
                && SubproofRange(sha, entries, start, end, m, known)
                   == SubproofRange(sha, entries, start + k, end, m - k, false)
                      + [MthRange(sha, entries, start, start + k)]
                && Subproof(sha, d, m, known) == Subproof(sha, d[k..], m - k, false) + [Mth(sha, d[..k])]
  {
    hide Split, Mth, MthRange;
  }

  lemma {:induction false} SubproofRangeIsSubproof(
    sha: Sha, entries: seq<bytes>, start: nat, end: nat, m: nat, known: bool)
    requires start <= end <= |entries| && 0 < m <= end - start
    ensures SubproofRange(sha, entries, start, end, m, known) == Subproof(sha, entries[start..end], m, known)
    decreases end - start
  {
    hide Split, Mth, MthRange, Subproof, SubproofRange;
    var n, d := end - start, entries[start..end];
    SubproofLevel(sha, entries, start, end, m, known);
    if m == n {
      MthRangeIsMth(sha, entries, start, end);
    } else {
      var k := Split(n);
      Halves(entries, start, end, k);
      if m <= k {
        MthRangeIsMth(sha, entries, start + k, end);
        SubproofRangeIsSubproof(sha, entries, start, start + k, m, known);
      } else {
        MthRangeIsMth(sha, entries, start, start + k);
        SubproofRangeIsSubproof(sha, entries, start + k, end, m - k, false);
      }
    }
  }

  // ---- climbing ------------------------------------------------------------

  /** On which side of the climbing hash the sibling stands. */
  datatype Side = Left | Right

  function Join(sha: Sha, side: Side, node: Digest, sibling: Digest): Digest {
    match side
    case Left => HashPair(sha, sibling, node)
    case Right => HashPair(sha, node, sibling)
  }

  /** What Join feeds the hash. */
  function Fed(side: Side, node: Digest, sibling: Digest): bytes {
    match side
    case Left => [1] + sibling + node
    case Right => [1] + node + sibling
  }

  /** Equal inputs of Join have equal parts. */
  lemma {:induction false} FedInjective(side: Side, a: Digest, b: Digest, c: Digest, e: Digest)
    requires Fed(side, a, b) == Fed(side, c, e)
    ensures a == c && b == e
  {
    if side.Left? {
      PairInjective(b, a, e, c);
    } else {
      PairInjective(a, b, c, e);
    }
  }

  lemma {:induction false} PairInjective(a: Digest, b: Digest, c: Digest, e: Digest)
    requires [1] + a + b == [1] + c + e
    ensures a == c && b == e
  {
    var x, y := [1] + a + b, [1] + c + e;
    assert a == x[1..33] && c == y[1..33];
    assert b == x[33..] && e == y[33..];
  }

  /** Fold siblings onto a hash, deepest first. */
  function Climb(sha: Sha, sides: seq<Side>, node: Digest, siblings: seq<Digest>): Digest
    requires |sides| == |siblings|
  {
    if |sides| == 0 then node
    else
      var last := |sides| - 1;
      Join(sha, sides[last], Climb(sha, sides[..last], node, siblings[..last]), siblings[last])
  }

  /** As Climb, but siblings on the right belong to the later tree only. */
  function ClimbOld(sha: Sha, sides: seq<Side>, node: Digest, siblings: seq<Digest>): Digest
    requires |sides| == |siblings|
  {
    if |sides| == 0 then node
    else
      var last := |sides| - 1;
      var below := ClimbOld(sha, sides[..last], node, siblings[..last]);
      if sides[last].Left? then HashPair(sha, siblings[last], below) else below
  }

  lemma {:induction false} ClimbNothing(sha: Sha, node: Digest)
    ensures Climb(sha, [], node, []) == node == ClimbOld(sha, [], node, [])
  {
  }

  /** One step of either climb. */
  lemma {:induction false} ClimbStep(sha: Sha, sides: seq<Side>, node: Digest, siblings: seq<Digest>, i: nat)
    requires i < |sides| && i < |siblings|
    ensures Climb(sha, sides[..i + 1], node, siblings[..i + 1])
         == Join(sha, sides[i], Climb(sha, sides[..i], node, siblings[..i]), siblings[i])
    ensures ClimbOld(sha, sides[..i + 1], node, siblings[..i + 1])
         == if sides[i].Right? then ClimbOld(sha, sides[..i], node, siblings[..i])
            else HashPair(sha, siblings[i], ClimbOld(sha, sides[..i], node, siblings[..i]))
  {
    assert sides[..i + 1][..i] == sides[..i];
    assert siblings[..i + 1][..i] == siblings[..i];
  }

  /** From the top of a tree of n leaves, every side leads into a proper subtree. */
  predicate Fits(sides: seq<Side>, n: nat) {
    if |sides| == 0 then n >= 1
    else
      var last := |sides| - 1;
      n >= 2 && Fits(sides[..last], if sides[last].Right? then Split(n) else n - Split(n))
  }

  /** The entries under the node that a climb along `sides` starts from. */
  function Start(d: seq<bytes>, sides: seq<Side>): (r: seq<bytes>)
    requires Fits(sides, |d|)
    decreases |sides|
  {
    if |sides| == 0 then d
    else
      var last, k := |sides| - 1, Split(|d|);
      Start(if sides[last].Right? then d[..k] else d[k..], sides[..last])
  }

  /** The honest siblings of a climb along `sides` in the tree over d. */
  function Siblings(sha: Sha, d: seq<bytes>, sides: seq<Side>): (r: seq<Digest>)
    requires Fits(sides, |d|)
    ensures |r| == |sides|
    decreases |sides|
  {
    if |sides| == 0 then []
    else
      var last, k := |sides| - 1, Split(|d|);
      if sides[last].Right? then Siblings(sha, d[..k], sides[..last]) + [Mth(sha, d[k..])]
      else Siblings(sha, d[k..], sides[..last]) + [Mth(sha, d[..k])]
  }

  /** Climbing with the honest siblings from the honest node reaches the head. */
  lemma {:induction false} ClimbHonest(sha: Sha, d: seq<bytes>, sides: seq<Side>)
    requires Fits(sides, |d|)
    ensures Climb(sha, sides, Mth(sha, Start(d, sides)), Siblings(sha, d, sides)) == Mth(sha, d)
    decreases |sides|
  {
    hide Split;
    if |sides| != 0 {
      var last, k := |sides| - 1, Split(|d|);
      var part := if sides[last].Right? then d[..k] else d[k..];
      ClimbHonest(sha, part, sides[..last]);
      assert Siblings(sha, d, sides)[..last] == Siblings(sha, part, sides[..last]);
    }
  }

  /**
   * The first place, from the top, where a climb that reaches the head feeds the
   * hash something else than the honest tree does.
   */
  function ClimbCollision(sha: Sha, d: seq<bytes>, sides: seq<Side>, node: Digest, siblings: seq<Digest>)
    : Option<(bytes, bytes)>
    requires Fits(sides, |d|) && |siblings| == |sides|
    decreases |sides|
  {
    if |sides| == 0 then None
    else
      var last, k := |sides| - 1, Split(|d|);
      var fed := Fed(sides[last], Climb(sha, sides[..last], node, siblings[..last]), siblings[last]);
      var honest := [1] + Mth(sha, d[..k]) + Mth(sha, d[k..]);
      if fed != honest then Some((fed, honest))
      else ClimbCollision(sha, if sides[last].Right? then d[..k] else d[k..], sides[..last], node, siblings[..last])
  }

  /** A climb, seen from its top join. */
  lemma {:induction false} ClimbTop(sha: Sha, sides: seq<Side>, node: Digest, siblings: seq<Digest>)
    requires |sides| == |siblings| > 0
    ensures var last := |sides| - 1;
            Climb(sha, sides, node, siblings)
            == sha(Fed(sides[last], Climb(sha, sides[..last], node, siblings[..last]), siblings[last]))
  {
  }

  /** A head, seen as the join of the part a side leads into and the other part. */
  lemma {:induction false} MthTop(sha: Sha, d: seq<bytes>, side: Side)
    requires |d| >= 2
    ensures var k := Split(|d|);
            var part, other := if side.Right? then d[..k] else d[k..], if side.Right? then d[k..] else d[..k];
            && Fed(side, Mth(sha, part), Mth(sha, other)) == [1] + Mth(sha, d[..k]) + Mth(sha, d[k..])
            && Mth(sha, d) == sha(Fed(side, Mth(sha, part), Mth(sha, other)))
  {
    hide Split, Mth;
    MthNode(sha, d, Split(|d|));
  }

  lemma {:induction false} FitsTop(sides: seq<Side>, n: nat)
    requires Fits(sides, n) && |sides| > 0
    ensures var last := |sides| - 1;
            n >= 2 && Fits(sides[..last], if sides[last].Right? then Split(n) else n - Split(n))
  {
    hide Split;
  }

  lemma {:induction false} NoClimb(sha: Sha, d: seq<bytes>, sides: seq<Side>, node: Digest, siblings: seq<Digest>)
    requires Fits(sides, |d|) && |siblings| == |sides| == 0
    ensures Climb(sha, sides, node, siblings) == node
    ensures Start(d, sides) == d && Siblings(sha, d, sides) == siblings
    ensures ClimbCollision(sha, d, sides, node, siblings) == None
  {
  }

  /** The collision search, one level down from the top. */
  lemma {:induction false} CollisionTop(
    sha: Sha, d: seq<bytes>, sides: seq<Side>, node: Digest, siblings: seq<Digest>)
    requires Fits(sides, |d|) && |siblings| == |sides| > 0
    ensures var last, k := |sides| - 1, Split(|d|);
            var side, below := sides[last], Climb(sha, sides[..last], node, siblings[..last]);
            var part, other := if side.Right? then d[..k] else d[k..], if side.Right? then d[k..] else d[..k];
            var fed, honest := Fed(side, below, siblings[last]), Fed(side, Mth(sha, part), Mth(sha, other));
            && |d| >= 2 && Fits(sides[..last], |part|)
            && ClimbCollision(sha, d, sides, node, siblings)
               == if fed != honest then Some((fed, honest))
                  else ClimbCollision(sha, part, sides[..last], node, siblings[..last])
  {
    hide Split, Mth, Climb, Fed;
    FitsTop(sides, |d|);
    MthTop(sha, d, sides[|sides| - 1]);
  }

  lemma {:induction false} LastApart<T(!new)>(s: seq<T>)
    requires |s| > 0
    ensures s == s[..|s| - 1] + [s[|s| - 1]]
  {
  }

  /**
   * A climb that reaches the head of d starts from the honest node with the
   * honest siblings, or ClimbCollision names a collision.
   */
  lemma {:induction false} ClimbSound(sha: Sha, d: seq<bytes>, sides: seq<Side>, node: Digest, siblings: seq<Digest>)
    requires Fits(sides, |d|) && |siblings| == |sides|
    requires Climb(sha, sides, node, siblings) == Mth(sha, d)
    ensures match ClimbCollision(sha, d, sides, node, siblings)
            case Some(pair) => IsCollision(sha, pair)
            case None => node == Mth(sha, Start(d, sides)) && siblings == Siblings(sha, d, sides)
    decreases |sides|
  {
    hide Split, Start, Siblings, Climb, Mth, Fed, Fits, ClimbCollision;
    if |sides| == 0 {
      NoClimb(sha, d, sides, node, siblings);
    } else {
      FitsTop(sides, |d|);
      var last, k := |sides| - 1, Split(|d|);
      var side, below := sides[last], Climb(sha, sides[..last], node, siblings[..last]);
      var part, other := if side.Right? then d[..k] else d[k..], if side.Right? then d[k..] else d[..k];
      ClimbTop(sha, sides, node, siblings);
      MthTop(sha, d, side);
      CollisionTop(sha, d, sides, node, siblings);
      if Fed(side, below, siblings[last]) == Fed(side, Mth(sha, part), Mth(sha, other)) {
        FedInjective(side, below, siblings[last], Mth(sha, part), Mth(sha, other));
        ClimbSound(sha, part, sides[..last], node, siblings[..last]);
        SiblingsStep(sha, d, sides[..last], side);
        LastApart(sides);
        LastApart(siblings);
      }
    }
  }

  // ---- the climbs of inclusion and consistency proofs ----------------------

  /** Sides met when climbing from leaf `index` of a tree of n leaves. */
  function LeafSides(index: nat, n: nat): (r: seq<Side>)
    requires index < n
    ensures Fits(r, n)
    decreases n
  {
    if n == 1 then []
    else
      var k := Split(n);
      if index < k then LeafSides(index, k) + [Right] else LeafSides(index - k, n - k) + [Left]
  }

  /** Sides met when climbing from the last subtree that ends exactly at leaf m. */
  function PrefixSides(m: nat, n: nat): (r: seq<Side>)
    requires 0 < m <= n
    ensures Fits(r, n)
    decreases n
  {
    if m == n then []
    else
      var k := Split(n);
      if m <= k then PrefixSides(m, k) + [Right] else PrefixSides(m - k, n - k) + [Left]
  }

  /** One level of the climb, seen from the top. */
  lemma {:induction false} SiblingsStep(sha: Sha, d: seq<bytes>, below: seq<Side>, side: Side)
    requires |d| >= 2
    requires Fits(below, if side.Right? then Split(|d|) else |d| - Split(|d|))
    ensures var k, sides := Split(|d|), below + [side];
            var part, other := if side.Right? then d[..k] else d[k..], if side.Right? then d[k..] else d[..k];
            && Fits(sides, |d|)
            && Start(d, sides) == Start(part, below)
            && Siblings(sha, d, sides) == Siblings(sha, part, below) + [Mth(sha, other)]
  {
    hide Split, Mth;
    assert (below + [side])[..|below|] == below;
  }

  /** One level of PATH and of the sides it follows. */
  lemma {:induction false} PathStep(sha: Sha, d: seq<bytes>, index: nat)
    requires index < |d|
    ensures |d| == 1 ==> LeafSides(index, 1) == [] && Path(sha, d, index) == []
    ensures |d| > 1 ==>
              var k := Split(|d|);
              if index < k then
                && LeafSides(index, |d|) == LeafSides(index, k) + [Right]
                && Path(sha, d, index) == Path(sha, d[..k], index) + [Mth(sha, d[k..])]
              else
                && LeafSides(index, |d|) == LeafSides(index - k, |d| - k) + [Left]
                && Path(sha, d, index) == Path(sha, d[k..], index - k) + [Mth(sha, d[..k])]
  {
    hide Split, Mth;
  }

  /** PATH is the honest climb from the leaf itself. */
  lemma {:induction false} PathIsSiblings(sha: Sha, d: seq<bytes>, index: nat)
    requires index < |d|
    ensures Path(sha, d, index) == Siblings(sha, d, LeafSides(index, |d|))
    ensures Start(d, LeafSides(index, |d|)) == [d[index]]
    decreases |d|
  {
    hide Split, Mth, Start, Siblings, Fits, LeafSides, Path;
    PathStep(sha, d, index);
    if |d| == 1 {
      WholeTree(sha, d);
    } else {
      var k := Split(|d|);
      if index < k {
        PathIsSiblings(sha, d[..k], index);
        SiblingsStep(sha, d, LeafSides(index, k), Right);
      } else {
        PathIsSiblings(sha, d[k..], index - k);
        SiblingsStep(sha, d, LeafSides(index - k, |d| - k), Left);
      }
    }
  }

  /** The honest proof that d extends its first m entries, with or without the start. */
  function HonestSubproof(sha: Sha, d: seq<bytes>, m: nat, known: bool): seq<Digest>
    requires 0 < m <= |d|
  {
    var sides := PrefixSides(m, |d|);
    (if known then [] else [Mth(sha, Start(d, sides))]) + Siblings(sha, d, sides)
  }

  /** One level of SUBPROOF and of the sides it follows. */
  lemma {:induction false} SubproofStep(sha: Sha, d: seq<bytes>, m: nat, known: bool)
    requires 0 < m <= |d|
    ensures m == |d| ==>
              && PrefixSides(m, |d|) == []
              && Subproof(sha, d, m, known) == if known then [] else [Mth(sha, d)]
    ensures m < |d| ==>
              var k := Split(|d|);
              if m <= k then
                && PrefixSides(m, |d|) == PrefixSides(m, k) + [Right]
                && Subproof(sha, d, m, known) == Subproof(sha, d[..k], m, known) + [Mth(sha, d[k..])]
              else
                && PrefixSides(m, |d|) == PrefixSides(m - k, |d| - k) + [Left]
                && Subproof(sha, d, m, known) == Subproof(sha, d[k..], m - k, false) + [Mth(sha, d[..k])]
  {
    hide Split, Mth;
  }

  /**
   * SUBPROOF is the honest climb from the prefix's last subtree; the subtree's own hash
   * is left out exactly when it is known and m is a power of two or the whole size.
   */
  lemma {:induction false} SubproofIsSiblings(sha: Sha, d: seq<bytes>, m: nat, known: bool)
    requires 0 < m <= |d|
    ensures Subproof(sha, d, m, known) == HonestSubproof(sha, d, m, known && (PowerOfTwo(m) || m == |d|))
    decreases |d|
  {
    hide Split, Mth, Start, Siblings, PrefixSides, Fits, Subproof, PowerOfTwo;
    SubproofStep(sha, d, m, known);
    if m == |d| {
      WholeTree(sha, d);
    } else {
      var k := Split(|d|);
      SplitIsPowerOfTwo(|d|);
      if m <= k {
        SubproofIsSiblings(sha, d[..k], m, known);
        SiblingsStep(sha, d, PrefixSides(m, k), Right);
      } else {
        if PowerOfTwo(m) {
          NoPowerPastSplit(m, |d|);
        }
        SubproofIsSiblings(sha, d[k..], m - k, false);
        SiblingsStep(sha, d, PrefixSides(m - k, |d| - k), Left);
      }
    }
  }

  /** The same siblings rebuild the head of the first m entries. */
  lemma {:induction false} ClimbOldHonest(sha: Sha, d: seq<bytes>, m: nat)
    requires 0 < m <= |d|
    ensures var sides := PrefixSides(m, |d|);
            ClimbOld(sha, sides, Mth(sha, Start(d, sides)), Siblings(sha, d, sides)) == Mth(sha, d[..m])
    decreases |d|
  {
    hide Split, Mth, Start, Siblings, ClimbOld, PrefixSides, Fits;
    SubproofStep(sha, d, m, true);
    if m == |d| {
      WholeTree(sha, d);
      assert d[..m] == d;
    } else {
      var k := Split(|d|);
      if m <= k {
        ClimbOldHonest(sha, d[..k], m);
        assert d[..k][..m] == d[..m];
        ClimbOldStep(sha, d, PrefixSides(m, k), Right);
      } else {
        ClimbOldHonest(sha, d[k..], m - k);
        SplitOfPrefix(m, |d|);
        MthNode(sha, d[..m], k);
        assert d[..m][..k] == d[..k];
        assert d[..m][k..] == d[k..][..m - k];
        ClimbOldStep(sha, d, PrefixSides(m - k, |d| - k), Left);
      }
    }
  }

  /** With no sides to climb, the start is the whole tree. */
  lemma {:induction false} WholeTree(sha: Sha, d: seq<bytes>)
    requires |d| >= 1
    ensures Start(d, []) == d && Siblings(sha, d, []) == []
    ensures ClimbOld(sha, [], Mth(sha, d), []) == Mth(sha, d)
  {
  }

  /** One level of the honest climb for the earlier tree. */
  lemma {:induction false} ClimbOldStep(sha: Sha, d: seq<bytes>, below: seq<Side>, side: Side)
    requires |d| >= 2
    requires Fits(below, if side.Right? then Split(|d|) else |d| - Split(|d|))
    ensures var k, sides := Split(|d|), below + [side];
            var part := if side.Right? then d[..k] else d[k..];
            var inner := ClimbOld(sha, below, Mth(sha, Start(part, below)), Siblings(sha, part, below));
            && Fits(sides, |d|)
            && ClimbOld(sha, sides, Mth(sha, Start(d, sides)), Siblings(sha, d, sides))
               == if side.Left? then HashPair(sha, Mth(sha, d[..k]), inner) else inner
  {
    hide Split, Mth, Siblings, Start;
    var k, sides := Split(|d|), below + [side];
    var part := if side.Right? then d[..k] else d[k..];
    SiblingsStep(sha, d, below, side);
    assert sides[..|below|] == below;
    assert Siblings(sha, d, sides)[..|below|] == Siblings(sha, part, below);
  }

  /** No power of two lies strictly between the split and the size. */
  lemma {:induction false} NoPowerPastSplit(m: nat, n: nat)
    requires 0 < m < n && PowerOfTwo(m)
    ensures m <= Split(n)
  {
    if m > Split(n) {
      TopBitUnique(m, n - 1);
    }
  }

  /** A prefix longer than the left subtree splits where the whole tree does. */
  lemma {:induction false} SplitOfPrefix(m: nat, n: nat)
    requires 2 <= n && Split(n) < m <= n
    ensures Split(m) == Split(n)
  {
    TopBitIsPowerOfTwo(n - 1);
    TopBitUnique(Split(n), m - 1);
  }

  /** If m is a power of two, the prefix's last subtree is the whole prefix. */
  lemma {:induction false} StartOfPowerOfTwo(d: seq<bytes>, m: nat)
    requires 0 < m <= |d| && PowerOfTwo(m)
    ensures Start(d, PrefixSides(m, |d|)) == d[..m]
    decreases |d|
  {
    hide Split;
    if m == |d| {
      assert d[..m] == d;
    } else {
      var k := Split(|d|);
      NoPowerPastSplit(m, |d|);
      var sides := PrefixSides(m, |d|);
      assert sides[..|sides| - 1] == PrefixSides(m, k);
      StartOfPowerOfTwo(d[..k], m);
      assert d[..k][..m] == d[..m];
    }
  }

  /** A climb in a tree of at most 2^h leaves takes at most h steps. */
  lemma {:induction false} SidesBounded(sides: seq<Side>, n: nat, h: nat)
    requires Fits(sides, n) && n <= Pow2(h)
    ensures |sides| <= h
    decreases |sides|
  {
    hide Split;
    if |sides| != 0 {
      var last := |sides| - 1;
      assert h >= 1;
      SplitBounded(n, h);
      SidesBounded(sides[..last], if sides[last].Right? then Split(n) else n - Split(n), h - 1);
    }
  }

  lemma {:induction false} TopBitBounded(s: nat, h: nat)
    requires 1 <= s < Pow2(h) && h >= 1
    ensures TopBit(s) <= Pow2(h - 1)
  {
    if s > 1 {
      TopBitBounded(s / 2, h - 1);
    }
  }

  lemma {:induction false} SplitBounded(n: nat, h: nat)
    requires 2 <= n <= Pow2(h) && h >= 1
    ensures Split(n) <= Pow2(h - 1) && n - Split(n) <= Pow2(h - 1)
  {
    TopBitBounded(n - 1, h);
  }
}
