/**
 * What the verifiers of merkle/index.js are for: honest proofs pass, accepted
 * proofs are about the claimed entries, and a chain of accepted heads is
 * append-only. Every "only if" names two hash inputs when it fails.
 */
module MerkleTheorems {
  import opened Bytes
  import opened MerkleTree
  import opened MerkleVerify

  // ---- inclusion -----------------------------------------------------------

  lemma {:induction false} Pow2Sum(a: nat, b: nat)
    ensures Pow2(a + b) == Pow2(a) * Pow2(b)
  {
    if a != 0 {
      Pow2Sum(a - 1, b);
      Doubled(Pow2(a - 1), Pow2(b));
    }
  }

  lemma {:induction false} Doubled(x: nat, y: nat)
    ensures (2 * x) * y == 2 * (x * y)
  {
  }

  lemma {:induction false} SmallPow2()
    ensures Pow2(1) == 2 && Pow2(13) == 0x2000
  {
  }

  lemma {:induction false} SizeFitsProofCap(sides: seq<Side>, n: nat)
    requires Fits(sides, n) && IsSize(n)
    ensures |sides| <= 53 < MAX_PROOF_HASHES
  {
    hide Pow2;
    Pow2Sum(26, 27);
    Pow2Sum(13, 13);
    Pow2Sum(13, 14);
    Pow2Sum(1, 13);
    SmallPow2();
    SidesBounded(sides, n, 53);
  }

  lemma {:induction false} SingleLeaf(sha: Sha, data: bytes)
    ensures Mth(sha, [data]) == HashLeaf(sha, data)
  {
  }

  /** Every honest path verifies, and has at most 53 hashes. */
  lemma {:induction false} InclusionComplete(sha: Sha, d: seq<bytes>, index: nat)
    requires index < |d| <= 9007199254740991
    ensures var proof := InclusionProof(sha, d, index);
            && proof.Ok? && |proof.value| <= 53
            && InclusionVerdict(sha, HashLeaf(sha, d[index]), index, |d|, Mth(sha, d), proof.value) == Accept
  {
    hide Split, Mth, LeafSides, PathRange, Path, Start, Siblings, Climb, Fits;
    var sides := LeafSides(index, |d|);
    assert d[0..|d|] == d;
    PathRangeIsPath(sha, d, 0, |d|, index);
    PathIsSiblings(sha, d, index);
    ClimbHonest(sha, d, sides);
    SizeFitsProofCap(sides, |d|);
    SingleLeaf(sha, d[index]);
  }

  /** The collision an accepted false inclusion claim about d gives away. */
  function InclusionCollision(sha: Sha, d: seq<bytes>, leaf: bytes, index: int, proof: seq<bytes>)
    : Option<(bytes, bytes)>
  {
    if 0 <= index < |d| && |leaf| == 32 && ParsedProof(proof).Ok? && |proof| == |LeafSides(index, |d|)| then
      ClimbCollision(sha, d, LeafSides(index, |d|), leaf, ParsedProof(proof).value)
    else None
  }

  /**
   * Against the head of d, exactly the leaf hash of d[index] with PATH(index, d)
   * is accepted: anything else accepted yields a collision.
   */
  lemma {:induction false} InclusionSound(sha: Sha, d: seq<bytes>, leaf: bytes, index: int, proof: seq<bytes>)
    requires InclusionVerdict(sha, leaf, index, |d|, Mth(sha, d), proof) == Accept
    ensures 0 <= index < |d|
    ensures match InclusionCollision(sha, d, leaf, index, proof)
            case Some(pair) => IsCollision(sha, pair)
            case None => leaf == HashLeaf(sha, d[index]) && proof == Path(sha, d, index)
  {
    var sides := LeafSides(index, |d|);
    ClimbSound(sha, d, sides, leaf, proof);
    PathIsSiblings(sha, d, index);
    SingleLeaf(sha, d[index]);
  }

  /** If the accepted leaf is the hash of some data, that data is the entry itself. */
  lemma {:induction false} InclusionOfData(sha: Sha, d: seq<bytes>, data: bytes, index: int, proof: seq<bytes>)
    requires InclusionVerdict(sha, HashLeaf(sha, data), index, |d|, Mth(sha, d), proof) == Accept
    ensures 0 <= index < |d|
    ensures match InclusionCollision(sha, d, HashLeaf(sha, data), index, proof)
            case Some(pair) => IsCollision(sha, pair)
            case None => data == d[index] || IsCollision(sha, ([0] + data, [0] + d[index]))
  {
    hide InclusionCollision, InclusionVerdict, Mth, Path;
    InclusionSound(sha, d, HashLeaf(sha, data), index, proof);
    if data != d[index] {
      assert ([0] + data)[1..] == data && ([0] + d[index])[1..] == d[index];
    }
  }

  // ---- consistency ---------------------------------------------------------

  /** Every pair of prefixes of d is shown consistent by consistencyProof. */
  lemma {:induction false} ConsistencyComplete(sha: Sha, d: seq<bytes>, m: nat, n: nat)
    requires m <= n <= |d| && n <= 9007199254740991
    ensures var proof := ConsistencyProof(sha, d, m, n);
            && proof.Ok?
            && ConsistencyVerdict(sha, m, n, Mth(sha, d[..m]), Mth(sha, d[..n]), proof.value) == Accept
  {
    hide Mth, Split, PrefixSides, Start, Siblings, Climb, ClimbOld, Fits, SubproofRange, Subproof;
    if m == 0 {
      assert d[..0] == [];
      EmptyHead(sha);
    } else if m < n {
      var e := d[..n];
      assert d[0..n] == e && d[..m] == e[..m];
      SubproofRangeIsSubproof(sha, d, 0, n, m, true);
      SubproofIsSiblings(sha, e, m, true);
      ExtensionAccepts(sha, e, m);
      SizeFitsProofCap(PrefixSides(m, n), n);
      StartShown(sha, e, m);
    }
  }

  lemma {:induction false} EmptyHead(sha: Sha)
    ensures Mth(sha, []) == EmptyRoot(sha)
  {
  }

  /** Whether or not the start was left out, the verifier's node list is the full one. */
  lemma {:induction false} StartShown(sha: Sha, d: seq<bytes>, m: nat)
    requires 0 < m < |d|
    ensures var proof := HonestSubproof(sha, d, m, PowerOfTwo(m));
            && proof != []
            && (if PowerOfTwo(m) then [Mth(sha, d[..m])] + proof else proof) == HonestSubproof(sha, d, m, false)
  {
    hide Mth, Split, Start, Siblings, Fits;
    SubproofStep(sha, d, m, true);
    if PowerOfTwo(m) {
      StartOfPowerOfTwo(d, m);
    }
  }

  lemma {:induction false} ExtensionAccepts(sha: Sha, d: seq<bytes>, m: nat)
    requires 0 < m < |d|
    ensures ExtensionVerdict(sha, m, |d|, Mth(sha, d[..m]), Mth(sha, d), HonestSubproof(sha, d, m, false)) == Accept
  {
    hide Mth, Split, PrefixSides, Start, Siblings, Climb, ClimbOld, Fits;
    ClimbHonest(sha, d, PrefixSides(m, |d|));
    ClimbOldHonest(sha, d, m);
    var nodes := HonestSubproof(sha, d, m, false);
    assert nodes[1..] == Siblings(sha, d, PrefixSides(m, |d|));
  }

  /** The nodes verifyConsistency climbs with. */
  function ConsistencyNodes(m: nat, oldRoot: Digest, nodes: seq<Digest>): seq<Digest> {
    if PowerOfTwo(m) then [oldRoot] + nodes else nodes
  }

  /** The collision that an accepted false claim about an earlier head gives away. */
  function ConsistencyCollision(sha: Sha, d: seq<bytes>, m: int, oldRoot: bytes, proof: seq<bytes>)
    : Option<(bytes, bytes)>
  {
    if 0 < m < |d| && |oldRoot| == 32 && ParsedProof(proof).Ok? then
      var nodes := ConsistencyNodes(m, oldRoot, ParsedProof(proof).value);
      var sides := PrefixSides(m, |d|);
      if |nodes| == |sides| + 1 then ClimbCollision(sha, d, sides, nodes[0], nodes[1..]) else None
    else None
  }

  lemma {:induction false} ExtensionSound(sha: Sha, d: seq<bytes>, m: nat, oldRoot: Digest, nodes: seq<Digest>)
    requires 0 < m < |d| && nodes != []
    requires ExtensionVerdict(sha, m, |d|, oldRoot, Mth(sha, d), nodes) == Accept
    ensures |nodes| == |PrefixSides(m, |d|)| + 1
    ensures match ClimbCollision(sha, d, PrefixSides(m, |d|), nodes[0], nodes[1..])
            case Some(pair) => IsCollision(sha, pair)
            case None => oldRoot == Mth(sha, d[..m]) && nodes == HonestSubproof(sha, d, m, false)
  {
    hide Mth, Split, PrefixSides, Start, Siblings, Climb, ClimbOld, Fits, ClimbCollision;
    ClimbSound(sha, d, PrefixSides(m, |d|), nodes[0], nodes[1..]);
    ClimbOldHonest(sha, d, m);
  }

  /** What any accepted proof has passed at the two ends. */
  lemma {:induction false} AcceptedEnds(sha: Sha, m: int, n: int, oldRoot: bytes, newRoot: bytes, proof: seq<bytes>)
    requires ConsistencyVerdict(sha, m, n, oldRoot, newRoot, proof) == Accept
    ensures 0 <= m <= n
    ensures m == 0 ==> oldRoot == EmptyRoot(sha)
    ensures m == n ==> oldRoot == newRoot
  {
    hide ExtensionVerdict, PowerOfTwo;
  }

  /** What an accepted proof between two different non-empty sizes has passed. */
  lemma {:induction false} AcceptedExtension(
    sha: Sha, m: int, n: int, oldRoot: bytes, newRoot: bytes, proof: seq<bytes>)
    requires 0 < m < n
    requires ConsistencyVerdict(sha, m, n, oldRoot, newRoot, proof) == Accept
    ensures |oldRoot| == |newRoot| == 32 && IsSize(n)
    ensures ParsedProof(proof) == Ok(proof)
    ensures var nodes := ConsistencyNodes(m, oldRoot, ParsedProof(proof).value);
            nodes != [] && ExtensionVerdict(sha, m, n, oldRoot, newRoot, nodes) == Accept
  {
    hide ExtensionVerdict, PowerOfTwo;
  }

  /**
   * A head that verifyConsistency accepts as an ancestor of the head of d is the
   * head of the first m entries of d, or a collision is named.
   */
  lemma {:induction false} ConsistencySound(sha: Sha, d: seq<bytes>, m: int, oldRoot: bytes, proof: seq<bytes>)
    requires ConsistencyVerdict(sha, m, |d|, oldRoot, Mth(sha, d), proof) == Accept
    ensures 0 <= m <= |d|
    ensures match ConsistencyCollision(sha, d, m, oldRoot, proof)
            case Some(pair) => IsCollision(sha, pair)
            case None => oldRoot == Mth(sha, d[..m])
  {
    hide Mth, ExtensionVerdict, PowerOfTwo, PrefixSides, ClimbCollision, ConsistencyNodes, ConsistencyVerdict;
    AcceptedEnds(sha, m, |d|, oldRoot, Mth(sha, d), proof);
    if m == 0 {
      assert d[..0] == [];
      EmptyHead(sha);
    } else if m == |d| {
      assert d[..m] == d;
    } else {
      AcceptedExtension(sha, m, |d|, oldRoot, Mth(sha, d), proof);
      ExtensionSound(sha, d, m, oldRoot, ConsistencyNodes(m, oldRoot, ParsedProof(proof).value));
    }
  }

  /**
   * The accepted proof is unique: between two different non-empty sizes only the
   * output of consistencyProof is accepted, or a collision is named.
   */
  lemma {:induction false} ConsistencyProofUnique(sha: Sha, d: seq<bytes>, m: int, oldRoot: bytes, proof: seq<bytes>)
    requires 0 < m < |d|
    requires ConsistencyVerdict(sha, m, |d|, oldRoot, Mth(sha, d), proof) == Accept
    ensures match ConsistencyCollision(sha, d, m, oldRoot, proof)
            case Some(pair) => IsCollision(sha, pair)
            case None => ConsistencyProof(sha, d, m, |d|).Ok? && proof == ConsistencyProof(sha, d, m, |d|).value
  {
    hide Mth, ExtensionVerdict, PowerOfTwo, PrefixSides, ClimbCollision, Siblings, Start, Fits,
         SubproofRange, Subproof, ConsistencyVerdict;
    AcceptedExtension(sha, m, |d|, oldRoot, Mth(sha, d), proof);
    var nodes := ConsistencyNodes(m, oldRoot, ParsedProof(proof).value);
    ExtensionSound(sha, d, m, oldRoot, nodes);
    assert d[0..|d|] == d;
    SubproofRangeIsSubproof(sha, d, 0, |d|, m, true);
    SubproofIsSiblings(sha, d, m, true);
    assert PowerOfTwo(m) ==> proof == nodes[1..];
  }

  /**
   * At m = 0 the new root is not constrained unless n = 0 as well: acceptance is
   * exactly an empty proof and the empty old root.
   */
  lemma {:induction false} GenesisAcceptance(sha: Sha, n: nat, oldRoot: bytes, newRoot: bytes, proof: seq<bytes>)
    requires IsSize(n) && |newRoot| == 32
    ensures ConsistencyVerdict(sha, 0, n, oldRoot, newRoot, proof) == Accept
       <==> proof == [] && oldRoot == sha([]) && (n == 0 ==> newRoot == sha([]))
  {
  }

  // ---- whole runs ----------------------------------------------------------

  datatype Head = Head(size: int, root: bytes)

  /** Consecutive heads pass verifyConsistency. */
  ghost predicate AcceptedChain(sha: Sha, heads: seq<Head>, proofs: seq<seq<bytes>>) {
    && |heads| == |proofs| + 1
    && forall j :: 0 <= j < |proofs| ==>
         ConsistencyVerdict(
           sha, heads[j].size, heads[j + 1].size, heads[j].root, heads[j + 1].root, proofs[j]) == Accept
  }

  /** The collision given away somewhere down an accepted chain that ends in d. */
  function ChainCollision(sha: Sha, d: seq<bytes>, heads: seq<Head>, proofs: seq<seq<bytes>>): Option<(bytes, bytes)>
    requires |heads| == |proofs| + 1
    decreases |proofs|
  {
    if |proofs| == 0 then None
    else
      var last := |proofs| - 1;
      var before := heads[last];
      match ConsistencyCollision(sha, d, before.size, before.root, proofs[last])
      case Some(pair) => Some(pair)
      case None =>
        if 0 <= before.size <= |d| then ChainCollision(sha, d[..before.size], heads[..last + 1], proofs[..last])
        else None
  }

  /** The head of a prefix of d. */
  predicate IsPrefixHead(sha: Sha, d: seq<bytes>, head: Head) {
    0 <= head.size <= |d| && head.root == Mth(sha, d[..head.size])
  }

  /** Every head is the head of a prefix of d, and none is shorter than the one before it. */
  ghost predicate PrefixHeads(sha: Sha, d: seq<bytes>, heads: seq<Head>) {
    && (forall j :: 0 <= j < |heads| ==> IsPrefixHead(sha, d, heads[j]))
    && (forall j :: 0 <= j < |heads| - 1 ==> heads[j].size <= heads[j + 1].size)
  }

  lemma {:induction false} OwnHead(sha: Sha, d: seq<bytes>)
    ensures IsPrefixHead(sha, d, Head(|d|, Mth(sha, d)))
  {
    hide Mth;
    assert d[..|d|] == d;
  }

  /** A prefix of a prefix of d is a prefix of d. */
  lemma {:induction false} ShorterPrefix(sha: Sha, d: seq<bytes>, n: nat, head: Head)
    requires n <= |d| && IsPrefixHead(sha, d[..n], head)
    ensures IsPrefixHead(sha, d, head) && head.size <= n
  {
    hide Mth;
    assert d[..n][..head.size] == d[..head.size];
  }

  /** Heads of prefixes of a prefix of d, and then the head of d. */
  lemma {:induction false} OneMoreHead(sha: Sha, d: seq<bytes>, n: nat, heads: seq<Head>)
    requires |heads| > 0 && n <= |d| && PrefixHeads(sha, d[..n], heads)
    ensures PrefixHeads(sha, d, heads + [Head(|d|, Mth(sha, d))])
  {
    hide Mth, IsPrefixHead;
    OwnHead(sha, d);
    forall j | 0 <= j < |heads| ensures IsPrefixHead(sha, d, heads[j]) && heads[j].size <= n {
      ShorterPrefix(sha, d, n, heads[j]);
    }
  }

  /** The last step of an accepted chain, and the chain before it. */
  lemma {:induction false} ChainTop(sha: Sha, d: seq<bytes>, heads: seq<Head>, proofs: seq<seq<bytes>>)
    requires AcceptedChain(sha, heads, proofs) && |proofs| > 0 && heads[|proofs|] == Head(|d|, Mth(sha, d))
    ensures var last := |proofs| - 1;
            && AcceptedChain(sha, heads[..last + 1], proofs[..last])
            && ConsistencyVerdict(
                 sha, heads[last].size, |d|, heads[last].root, Mth(sha, d), proofs[last]) == Accept
            && heads == heads[..last + 1] + [Head(|d|, Mth(sha, d))]
  {
    hide Mth, ConsistencyVerdict;
    var last := |proofs| - 1;
    assert forall j :: 0 <= j <= last ==> heads[..last + 1][j] == heads[j];
    assert forall j :: 0 <= j < last ==> proofs[..last][j] == proofs[j];
    assert heads[last + 1] == Head(|d|, Mth(sha, d));
  }

  /** The search for a collision, seen from the end of the chain. */
  lemma {:induction false} CollisionLevel(sha: Sha, d: seq<bytes>, heads: seq<Head>, proofs: seq<seq<bytes>>)
    requires |heads| == |proofs| + 1
    ensures ChainCollision(sha, d, heads, proofs) ==
            if |proofs| == 0 then None
            else
              var last := |proofs| - 1;
              var hit := ConsistencyCollision(sha, d, heads[last].size, heads[last].root, proofs[last]);
              if hit.Some? then hit
              else if 0 <= heads[last].size <= |d| then
                ChainCollision(sha, d[..heads[last].size], heads[..last + 1], proofs[..last])
              else None
  {
    hide ConsistencyCollision;
  }

  /** Every head of an accepted chain that ends at the head of d is the head of a prefix of d. */
  lemma {:induction false} AppendOnly(sha: Sha, d: seq<bytes>, heads: seq<Head>, proofs: seq<seq<bytes>>)
    requires AcceptedChain(sha, heads, proofs)
    requires heads[|proofs|] == Head(|d|, Mth(sha, d))
    ensures match ChainCollision(sha, d, heads, proofs)
            case Some(pair) => IsCollision(sha, pair)
            case None => PrefixHeads(sha, d, heads)
    decreases |proofs|
  {
    hide Mth, ChainCollision, ConsistencyCollision, ConsistencyVerdict, PrefixHeads, IsCollision;
    CollisionLevel(sha, d, heads, proofs);
    if |proofs| == 0 {
      OnlyHead(sha, d, heads);
    } else {
      var before := heads[|proofs| - 1];
      ChainTop(sha, d, heads, proofs);
      ConsistencySound(sha, d, before.size, before.root, proofs[|proofs| - 1]);
      if ConsistencyCollision(sha, d, before.size, before.root, proofs[|proofs| - 1]).None? {
        AppendOnly(sha, d[..before.size], heads[..|proofs|], proofs[..|proofs| - 1]);
        if ChainCollision(sha, d, heads, proofs).None? {
          OneMoreHead(sha, d, before.size, heads[..|proofs|]);
        }
      }
    }
  }

  lemma {:induction false} OnlyHead(sha: Sha, d: seq<bytes>, heads: seq<Head>)
    requires |heads| == 1 && heads[0] == Head(|d|, Mth(sha, d))
    ensures PrefixHeads(sha, d, heads)
  {
    hide Mth;
    OwnHead(sha, d);
  }

  /** The collision behind a leaf accepted against some head of the chain. */
  function AuditCollision(
    sha: Sha, d: seq<bytes>, heads: seq<Head>, proofs: seq<seq<bytes>>, j: nat,
    leaf: bytes, index: int, path: seq<bytes>) : Option<(bytes, bytes)>
    requires j < |heads| == |proofs| + 1
  {
    match ChainCollision(sha, d, heads, proofs)
    case Some(pair) => Some(pair)
    case None =>
      if 0 <= heads[j].size <= |d| then InclusionCollision(sha, d[..heads[j].size], leaf, index, path) else None
  }

  /** A leaf accepted against any head of the chain is the leaf hash of d at that index. */
  lemma {:induction false} AuditedLeaf(
    sha: Sha, d: seq<bytes>, heads: seq<Head>, proofs: seq<seq<bytes>>, j: nat,
    leaf: bytes, index: int, path: seq<bytes>)
    requires AcceptedChain(sha, heads, proofs) && j < |heads|
    requires heads[|proofs|] == Head(|d|, Mth(sha, d))
    requires InclusionVerdict(sha, leaf, index, heads[j].size, heads[j].root, path) == Accept
    ensures match AuditCollision(sha, d, heads, proofs, j, leaf, index, path)
            case Some(pair) => IsCollision(sha, pair)
            case None => 0 <= index < |d| && leaf == HashLeaf(sha, d[index])
  {
    hide Mth, ChainCollision, InclusionCollision, InclusionVerdict, ConsistencyVerdict;
    AppendOnly(sha, d, heads, proofs);
    if ChainCollision(sha, d, heads, proofs).None? {
      InclusionSound(sha, d[..heads[j].size], leaf, index, path);
    }
  }
}
