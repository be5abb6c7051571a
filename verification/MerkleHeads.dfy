/**
 * What a head of merkle/index.js is a hash of, and that it binds its entries: the
 * empty log, a single leaf and a node are told apart by what is fed to the hash.
 * Also which refusal each bad input of the verifiers and generators gets.
 */
module MerkleHeads {
  import opened Bytes
  import opened MerkleTree
  import opened MerkleVerify
  import opened MerkleTheorems

  // ---- heads bind entries --------------------------------------------------

  /**
   * RFC 9162 section 2.1.1 with every hash input spelled out: nothing for the empty log,
   * a zero byte before a single entry, a one byte before two subtree heads that split at
   * the largest power of two below the size.
   */
  lemma {:induction false} HeadSpelled(sha: Sha, d: seq<bytes>) returns (h: nat)
    ensures |d| == 0 ==> Mth(sha, d) == sha([])
    ensures |d| == 1 ==> Mth(sha, d) == sha([0] + d[0])
    ensures |d| >= 2 ==> var k := Pow2(h);
              k < |d| <= 2 * k && Mth(sha, d) == sha([1] + Mth(sha, d[..k]) + Mth(sha, d[k..]))
  {
    hide Pow2, Split, PowerOfTwo;
    h := 0;
    if |d| >= 2 {
      MthNode(sha, d, Split(|d|));
      SplitIsPowerOfTwo(|d|);
      h := Exponent(Split(|d|));
    }
  }

  /** What the head of d hashes. */
  function HeadInput(sha: Sha, d: seq<bytes>): bytes {
    if |d| == 0 then []
    else if |d| == 1 then [0] + d[0]
    else [1] + Mth(sha, d[..Split(|d|)]) + Mth(sha, d[Split(|d|)..])
  }

  lemma {:induction false} HeadHashesInput(sha: Sha, d: seq<bytes>)
    ensures Mth(sha, d) == sha(HeadInput(sha, d))
  {
    hide Split;
  }

  /** The first place, from the top and from the left, where two logs feed the hash differently. */
  function HeadCollision(sha: Sha, d: seq<bytes>, e: seq<bytes>): Option<(bytes, bytes)>
    decreases |d|
  {
    if HeadInput(sha, d) != HeadInput(sha, e) then Some((HeadInput(sha, d), HeadInput(sha, e)))
    else if |d| < 2 || |e| < 2 then None
    else
      var (j, k) := (Split(|d|), Split(|e|));
      match HeadCollision(sha, d[..j], e[..k])
      case Some(pair) => Some(pair)
      case None => HeadCollision(sha, d[j..], e[k..])
  }

  /** One hash input has one shape: empty, a leaf with its data, or a node with two heads. */
  lemma {:induction false} InputShape(sha: Sha, d: seq<bytes>, e: seq<bytes>)
    requires HeadInput(sha, d) == HeadInput(sha, e)
    ensures |d| == |e| || (|d| >= 2 && |e| >= 2)
    ensures |d| < 2 ==> d == e
    ensures |d| >= 2 ==>
              && Mth(sha, d[..Split(|d|)]) == Mth(sha, e[..Split(|e|)])
              && Mth(sha, d[Split(|d|)..]) == Mth(sha, e[Split(|e|)..])
  {
    hide Split, Mth;
    var x, y := HeadInput(sha, d), HeadInput(sha, e);
    assert |d| >= 1 ==> x[0] == (if |d| == 1 then 0 else 1);
    assert |e| >= 1 ==> y[0] == (if |e| == 1 then 0 else 1);
    if |d| == 1 {
      assert d[0] == x[1..] && e[0] == y[1..];
      assert d == [d[0]] && e == [e[0]];
    } else if |d| >= 2 {
      PairInjective(
        Mth(sha, d[..Split(|d|)]), Mth(sha, d[Split(|d|)..]), Mth(sha, e[..Split(|e|)]), Mth(sha, e[Split(|e|)..]));
    }
  }

  /** Two logs with one head are one log, whatever their sizes, or a collision is named. */
  lemma {:induction false} HeadBinds(sha: Sha, d: seq<bytes>, e: seq<bytes>)
    requires Mth(sha, d) == Mth(sha, e)
    ensures match HeadCollision(sha, d, e)
            case Some(pair) => IsCollision(sha, pair)
            case None => d == e
    decreases |d|
  {
    hide Split, Mth, HeadInput;
    HeadHashesInput(sha, d);
    HeadHashesInput(sha, e);
    if HeadInput(sha, d) == HeadInput(sha, e) {
      InputShape(sha, d, e);
      if |d| >= 2 {
        var (j, k) := (Split(|d|), Split(|e|));
        HeadBinds(sha, d[..j], e[..k]);
        HeadBinds(sha, d[j..], e[k..]);
        assert d == d[..j] + d[j..] && e == e[..k] + e[k..];
      }
    }
  }

  // ---- refusals ------------------------------------------------------------

  /** A wire hash has 32 bytes. */
  predicate AreHashes(proof: seq<bytes>) { forall i :: 0 <= i < |proof| ==> |proof[i]| == 32 }

  /** What verifyInclusion looks at before it climbs. */
  predicate ReadableLeafClaim(leaf: bytes, index: int, size: int, root: bytes) {
    |leaf| == 32 && |root| == 32 && 0 <= index < size <= 9007199254740991
  }

  /** Each refusal of verifyInclusion, for exactly the claims that get it. */
  lemma {:induction false} InclusionRefusals(
    sha: Sha, leaf: bytes, index: int, size: int, root: bytes, proof: seq<bytes>)
    ensures var v := InclusionVerdict(sha, leaf, index, size, root, proof);
            && (v == Refuse(BadSize) <==>
                  |leaf| == 32 && |root| == 32 && !(0 <= size <= 9007199254740991))
            && (v == Refuse(BadIndex) <==>
                  |leaf| == 32 && |root| == 32 && 0 <= size <= 9007199254740991
                  && !(0 <= index <= 9007199254740991))
            && (v == Refuse(IndexOutOfRange) <==>
                  |leaf| == 32 && |root| == 32 && 0 <= size <= index <= 9007199254740991)
            && (v == Refuse(BadProofElement) <==>
                  || |leaf| != 32 || |root| != 32
                  || (ReadableLeafClaim(leaf, index, size, root) && |proof| <= 64 && !AreHashes(proof)))
    ensures ReadableLeafClaim(leaf, index, size, root) ==>
              var (v, n) := (InclusionVerdict(sha, leaf, index, size, root, proof), |LeafSides(index, size)|);
              && (v == Refuse(ProofTooLong) <==> |proof| > 64 || (AreHashes(proof) && |proof| > n))
              && (v == Refuse(ProofTooShort) <==> AreHashes(proof) && |proof| < n)
              && (v == Refuse(RootMismatch) <==>
                    |proof| == n && AreHashes(proof) && Climb(sha, LeafSides(index, size), leaf, proof) != root)
              && (v == Accept <==>
                    |proof| == n && AreHashes(proof) && Climb(sha, LeafSides(index, size), leaf, proof) == root)
  {
    hide LeafSides, Climb, Fits;
    if ReadableLeafClaim(leaf, index, size, root) {
      SizeFitsProofCap(LeafSides(index, size), size);
    }
  }

  /** What verifyConsistency looks at before it compares roots. */
  predicate ReadableExtension(m: int, n: int, oldRoot: bytes, newRoot: bytes) {
    0 <= m <= 9007199254740991 && 0 <= n <= 9007199254740991 && |oldRoot| == 32 && |newRoot| == 32
  }

  /** Each refusal of verifyConsistency up to the climb, for exactly the claims that get it. */
  lemma {:induction false} ConsistencyRefusals(
    sha: Sha, m: int, n: int, oldRoot: bytes, newRoot: bytes, proof: seq<bytes>)
    ensures var v := ConsistencyVerdict(sha, m, n, oldRoot, newRoot, proof);
            && (v == Refuse(BadSize) <==> !(0 <= m <= 9007199254740991 && 0 <= n <= 9007199254740991))
            && (v == Refuse(BadProofElement) <==>
                  && 0 <= m <= 9007199254740991 && 0 <= n <= 9007199254740991
                  && (|oldRoot| != 32 || |newRoot| != 32 || (|proof| <= 64 && !AreHashes(proof))))
            && (ReadableExtension(m, n, oldRoot, newRoot) && |proof| > 64 ==> v == Refuse(ProofTooLong))
            && (v == Refuse(MGreaterThanN) <==>
                  ReadableExtension(m, n, oldRoot, newRoot) && |proof| <= 64 && AreHashes(proof) && m > n)
            && (v == Refuse(ProofNotEmpty) <==>
                  && ReadableExtension(m, n, oldRoot, newRoot) && 0 < |proof| <= 64 && AreHashes(proof)
                  && m <= n && (m == 0 || m == n))
    ensures ReadableExtension(m, n, oldRoot, newRoot) && proof == [] && m <= n ==>
              var v := ConsistencyVerdict(sha, m, n, oldRoot, newRoot, proof);
              if m == 0 then
                v == if oldRoot == sha([]) && (n == 0 ==> newRoot == sha([])) then Accept else Refuse(RootMismatch)
              else if m == n then v == if oldRoot == newRoot then Accept else Refuse(RootMismatch)
              else v == Refuse(ProofTooShort)
    ensures ReadableExtension(m, n, oldRoot, newRoot) && AreHashes(proof) && 0 < |proof| <= 64 && 0 < m < n ==>
              var v := ConsistencyVerdict(sha, m, n, oldRoot, newRoot, proof);
              var (nodes, sides) := (if PowerOfTwo(m) then [oldRoot] + proof else proof, PrefixSides(m, n));
              && (v == Refuse(ProofTooLong) <==> |nodes| - 1 > |sides|)
              && (v == Refuse(ProofTooShort) <==> |nodes| - 1 < |sides|)
              && (|nodes| - 1 == |sides| ==>
                    v == if ClimbOld(sha, sides, nodes[0], nodes[1..]) == oldRoot
                            && Climb(sha, sides, nodes[0], nodes[1..]) == newRoot
                         then Accept else Refuse(RootMismatch))
  {
    hide PrefixSides, Climb, ClimbOld, PowerOfTwo, Fits;
  }

  /** inclusionProof and consistencyProof refuse exactly the indices and sizes the log does not have. */
  lemma {:induction false} GeneratorRefusals(sha: Sha, d: seq<bytes>, index: int, m: int, n: int)
    requires |d| <= 9007199254740991
    ensures var path := InclusionProof(sha, d, index);
            && (path == Err(BadIndex) <==> !(0 <= index <= 9007199254740991))
            && (path == Err(IndexOutOfRange) <==> |d| <= index <= 9007199254740991)
            && (path.Ok? <==> 0 <= index < |d|)
            && (path.Ok? ==> path.value == Path(sha, d, index))
    ensures var proof := ConsistencyProof(sha, d, m, n);
            && (proof == Err(BadSize) <==> !(0 <= m <= 9007199254740991 && 0 <= n <= |d|))
            && (proof == Err(MGreaterThanN) <==> 0 <= n <= |d| && n < m <= 9007199254740991)
            && (proof.Ok? <==> 0 <= m <= n <= |d|)
            && (proof.Ok? ==> proof.value == if m == 0 then [] else Subproof(sha, d[..n], m, true))
  {
    hide PathRange, Path, SubproofRange, Subproof, Mth;
    assert d[0..|d|] == d;
    if 0 <= index < |d| {
      PathRangeIsPath(sha, d, 0, |d|, index);
    }
    if 0 < m <= n <= |d| {
      assert d[0..n] == d[..n];
      SubproofRangeIsSubproof(sha, d, 0, n, m, true);
      SubproofStep(sha, d[..n], m, true);
    }
  }
}
