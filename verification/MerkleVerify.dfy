/**
 * The verifiers of merkle/index.js: loops that shift two counters, proved equal
 * to a climb along the recursive tree.
 */
module MerkleVerify {
  import opened Bytes
  import opened MerkleTree

  /** Implementation limits of merkle/index.js. */
  const MAX_TREE_SIZE: nat := 0x1F_FFFF_FFFF_FFFF
  const MAX_PROOF_HASHES: nat := 64

  datatype Reason =
    | BadProofElement | BadSize | BadIndex | IndexOutOfRange | MGreaterThanN
    | ProofTooLong | ProofTooShort | ProofNotEmpty | RootMismatch

  datatype Verdict = Accept | Refuse(reason: Reason)

  predicate IsSize(value: int) { 0 <= value <= MAX_TREE_SIZE }

  // ---- what the verifiers decide -------------------------------------------

  function ParsedProof(proof: seq<bytes>): Result<seq<Digest>, Reason> {
    if |proof| > MAX_PROOF_HASHES then Err(ProofTooLong)
    else if exists i :: 0 <= i < |proof| && |proof[i]| != 32 then Err(BadProofElement)
    else Ok(proof)
  }

  function InclusionVerdict(sha: Sha, leaf: bytes, index: int, size: int, root: bytes, proof: seq<bytes>): Verdict {
    if |leaf| != 32 || |root| != 32 then Refuse(BadProofElement)
    else if !IsSize(size) then Refuse(BadSize)
    else if !IsSize(index) then Refuse(BadIndex)
    else if index >= size then Refuse(IndexOutOfRange)
    else match ParsedProof(proof)
      case Err(reason) => Refuse(reason)
      case Ok(nodes) =>
        LeafVerdict(sha, leaf, index, size, root, nodes)
  }

  function LeafVerdict(sha: Sha, leaf: Digest, index: nat, size: nat, root: Digest, nodes: seq<Digest>): Verdict
    requires index < size
  {
    var sides := LeafSides(index, size);
    if |nodes| > |sides| then Refuse(ProofTooLong)
    else if |nodes| < |sides| then Refuse(ProofTooShort)
    else if Climb(sha, sides, leaf, nodes) != root then Refuse(RootMismatch)
    else Accept
  }

  function ConsistencyVerdict(sha: Sha, m: int, n: int, oldRoot: bytes, newRoot: bytes, proof: seq<bytes>): Verdict {
    if !IsSize(m) || !IsSize(n) then Refuse(BadSize)
    else if |oldRoot| != 32 || |newRoot| != 32 then Refuse(BadProofElement)
    else match ParsedProof(proof)
      case Err(reason) => Refuse(reason)
      case Ok(nodes) =>
        if m > n then Refuse(MGreaterThanN)
        else if m == 0 || m == n then TrivialVerdict(sha, m, n, oldRoot, newRoot, nodes)
        else if nodes == [] then Refuse(ProofTooShort)
        else ExtensionVerdict(sha, m, n, oldRoot, newRoot, if PowerOfTwo(m) then [oldRoot] + nodes else nodes)
  }

  /** Genesis (m = 0) and equal sizes. */
  function TrivialVerdict(sha: Sha, m: nat, n: nat, oldRoot: Digest, newRoot: Digest, nodes: seq<Digest>): Verdict
    requires m == 0 || m == n
  {
    if nodes != [] then Refuse(ProofNotEmpty)
    else if m == 0 && oldRoot != EmptyRoot(sha) then Refuse(RootMismatch)
    else if m == n && newRoot != oldRoot then Refuse(RootMismatch)
    else Accept
  }

  function ExtensionVerdict(sha: Sha, m: nat, n: nat, oldRoot: Digest, newRoot: Digest, nodes: seq<Digest>): Verdict
    requires 0 < m < n && nodes != []
  {
    var sides, node, siblings := PrefixSides(m, n), nodes[0], nodes[1..];
    if |siblings| > |sides| then Refuse(ProofTooLong)
    else if |siblings| < |sides| then Refuse(ProofTooShort)
    else if ClimbOld(sha, sides, node, siblings) != oldRoot then Refuse(RootMismatch)
    else if Climb(sha, sides, node, siblings) != newRoot then Refuse(RootMismatch)
    else Accept
  }

  // ---- the counters --------------------------------------------------------

  /** Shift trailing zeros out of a positive number. */
  function OddPart(x: nat): (r: nat)
    requires x > 0
    ensures 0 < r <= x && r % 2 == 1
  {
    if x % 2 == 1 then x else OddPart(x / 2)
  }

  /** The sides the loop takes from counters fn and sn. */
  function Walk(fn: nat, sn: nat): seq<Side>
    requires fn <= sn
    decreases sn
  {
    if sn == 0 then []
    else if fn % 2 == 1 then [Left] + Walk(fn / 2, sn / 2)
    else if fn == sn then [Left] + Walk(OddPart(fn) / 2, OddPart(fn) / 2)
    else [Right] + Walk(fn / 2, sn / 2)
  }

  /** Shift both counters while the first is odd. */
  function Strip(fn: nat, sn: nat): (r: (nat, nat))
    requires fn <= sn
    ensures r.0 <= r.1 && r.0 % 2 == 0
    ensures fn < sn ==> r.0 < r.1
    decreases fn
  {
    if fn % 2 == 1 then Strip(fn / 2, sn / 2) else (fn, sn)
  }

  /** One step of the walk whose counters halve. */
  lemma {:induction false} WalkStep(fn: nat, sn: nat)
    requires fn <= sn
    ensures Walk(fn, sn) == [] <==> sn == 0
    ensures sn > 0 && !(fn == sn && fn % 2 == 0) ==>
              Walk(fn, sn) == [if fn % 2 == 1 then Left else Right] + Walk(fn / 2, sn / 2)
  {
  }

  lemma {:induction false} WalkOne()
    ensures TopBit(1) == 1 && Walk(1, 1) == [Left] && Walk(0, 1) == [Right] && Walk(0, 0) == []
  {
  }

  /** Left of the split, the walk is the left subtree's walk and one right sibling. */
  lemma {:induction false} WalkLeft(fn: nat, sn: nat)
    requires sn >= 1 && fn < TopBit(sn)
    ensures Walk(fn, sn) == Walk(fn, TopBit(sn) - 1) + [Right]
    decreases sn
  {
    hide Walk, TopBit;
    if sn == 1 {
      WalkOne();
    } else {
      WalkStep(fn, sn);
      WalkStep(fn, TopBit(sn) - 1);
      HalveTopBit(sn, sn);
      WalkLeft(fn / 2, sn / 2);
    }
  }

  /** Halving a number above one halves its top bit. */
  lemma {:induction false} HalveTopBit(fn: nat, sn: nat)
    requires sn >= 2 && TopBit(sn) <= fn <= sn
    ensures var k, k' := TopBit(sn), TopBit(sn / 2);
            && k == 2 * k' <= sn
            && (fn - k) / 2 == fn / 2 - k' && (sn - k) / 2 == sn / 2 - k'
            && (fn - k) % 2 == fn % 2
  {
  }

  lemma {:induction false} OddPartDropsTopBit(x: nat)
    requires x >= 1 && x != TopBit(x)
    ensures OddPart(x) > 1
    ensures OddPart(x) - TopBit(OddPart(x)) == OddPart(x - TopBit(x))
    decreases x
  {
    if x > 1 {
      hide TopBit;
      HalveTopBit(x, x);
      if x % 2 == 0 {
        OddPartDropsTopBit(x / 2);
      }
    }
  }

  lemma {:induction false} OddPartOfTopBit(x: nat)
    requires x >= 1 && x == TopBit(x)
    ensures OddPart(x) == 1
    decreases x
  {
    if x > 1 {
      hide TopBit;
      HalveTopBit(x, x);
      OddPartOfTopBit(x / 2);
    }
  }

  /** Right of the split, the walk is the right subtree's walk and one left sibling. */
  lemma {:induction false} WalkRight(fn: nat, sn: nat)
    requires 1 <= sn && TopBit(sn) <= fn <= sn
    ensures Walk(fn, sn) == Walk(fn - TopBit(sn), sn - TopBit(sn)) + [Left]
    decreases sn
  {
    hide TopBit, OddPart, Walk;
    if sn == 1 {
      WalkOne();
    } else {
      HalveTopBit(fn, sn);
      if fn == sn && fn % 2 == 0 {
        WalkRightDiagonal(fn);
      } else {
        var k := TopBit(sn);
        WalkStep(fn, sn);
        WalkStep(fn - k, sn - k);
        WalkRight(fn / 2, sn / 2);
      }
    }
  }

  /** The last leaf's counters, when they are even and shift together. */
  lemma {:induction false} WalkRightDiagonal(x: nat)
    requires x >= 2 && x % 2 == 0
    ensures Walk(x, x) == Walk(x - TopBit(x), x - TopBit(x)) + [Left]
    decreases x, 0
  {
    hide TopBit, OddPart;
    var k, odd := TopBit(x), OddPart(x);
    HalveTopBit(x, x);
    if x == k {
      OddPartOfTopBit(x);
    } else {
      OddPartDropsTopBit(x);
      HalveTopBit(odd, odd);
      WalkRight(odd / 2, odd / 2);
    }
  }

  lemma {:induction false} WalkIsLeafSides(index: nat, n: nat)
    requires index < n
    ensures Walk(index, n - 1) == LeafSides(index, n)
    decreases n
  {
    hide TopBit, Fits, Walk;
    WalkStep(0, 0);
    if n > 1 {
      var k := Split(n);
      if index < k {
        WalkLeft(index, n - 1);
        WalkIsLeafSides(index, k);
      } else {
        WalkRight(index, n - 1);
        WalkIsLeafSides(index - k, n - k);
      }
    }
  }

  lemma {:induction false} StripStep(fn: nat, sn: nat)
    requires fn <= sn
    ensures Strip(fn, sn) == if fn % 2 == 1 then Strip(fn / 2, sn / 2) else (fn, sn)
  {
  }

  /** The sides walked once the counters are stripped. */
  function StrippedWalk(fn: nat, sn: nat): seq<Side>
    requires fn <= sn
  {
    Walk(Strip(fn, sn).0, Strip(fn, sn).1)
  }

  lemma {:induction false} StripLeft(fn: nat, sn: nat)
    requires sn >= 1 && fn < TopBit(sn)
    ensures StrippedWalk(fn, sn) == (if fn == TopBit(sn) - 1 then [] else StrippedWalk(fn, TopBit(sn) - 1)) + [Right]
    decreases sn
  {
    hide Walk, Strip;
    WalkStep(0, 0);
    StripStep(fn, sn);
    StripStep(fn, TopBit(sn) - 1);
    if fn % 2 == 0 {
      WalkLeft(fn, sn);
    }
    if sn >= 2 {
      hide TopBit;
      HalveTopBit(sn, sn);
      if fn % 2 == 1 {
        StripLeft(fn / 2, sn / 2);
      }
    }
  }

  lemma {:induction false} StripRight(fn: nat, sn: nat)
    requires 1 <= sn && TopBit(sn) <= fn < sn
    ensures StrippedWalk(fn, sn) == StrippedWalk(fn - TopBit(sn), sn - TopBit(sn)) + [Left]
    decreases sn
  {
    hide Walk, TopBit, Strip;
    StripStep(fn, sn);
    StripStep(fn - TopBit(sn), sn - TopBit(sn));
    HalveTopBit(fn, sn);
    if fn % 2 == 0 {
      WalkRight(fn, sn);
    } else {
      StripRight(fn / 2, sn / 2);
    }
  }

  lemma {:induction false} WalkIsPrefixSides(m: nat, n: nat)
    requires 0 < m < n
    ensures StrippedWalk(m - 1, n - 1) == PrefixSides(m, n)
    decreases n
  {
    hide TopBit, Fits, Walk, Strip;
    var k := Split(n);
    if m <= k {
      StripLeft(m - 1, n - 1);
      if m < k {
        WalkIsPrefixSides(m, k);
      }
    } else {
      StripRight(m - 1, n - 1);
      WalkIsPrefixSides(m - k, n - k);
    }
  }

  // ---- the code's loops ----------------------------------------------------

  /** largestPowerOfTwoLessThan. */
  method LargestPowerOfTwoLessThan(n: nat) returns (k: nat)
    ensures n >= 2 ==> k == Split(n)
    ensures n < 2 ==> k == 1
  {
    k := 1;
    while k * 2 < n
      invariant k >= 1 && PowerOfTwo(k)
      invariant k == 1 || k < n
    {
      k := k * 2;
    }
    if n >= 2 {
      TopBitUnique(k, n - 1);
    }
  }

  /** isPowerOfTwo. */
  method IsPowerOfTwo(m: int) returns (yes: bool)
    ensures yes <==> PowerOfTwo(m)
  {
    if m <= 0 {
      return false;
    }
    var x := m;
    while x % 2 == 0
      invariant x >= 1
      invariant PowerOfTwo(x) <==> PowerOfTwo(m)
      decreases x
    {
      x := x / 2;
    }
    return x == 1;
  }

  /** parseProof. */
  method ParseProof(proof: seq<bytes>) returns (r: Result<seq<Digest>, Reason>)
    ensures r == ParsedProof(proof)
  {
    if |proof| > MAX_PROOF_HASHES {
      return Err(ProofTooLong);
    }
    var nodes: seq<Digest> := [];
    for i := 0 to |proof|
      invariant nodes == proof[..i]
    {
      if |proof[i]| != 32 {
        return Err(BadProofElement);
      }
      nodes := nodes + [proof[i]];
    }
    assert proof[..|proof|] == proof;
    return Ok(nodes);
  }

  /** One turn of the counters at the end of a loop body, the inner shifts included. */
  method Shift(fn: nat, sn: nat, ghost side: Side) returns (fn': nat, sn': nat)
    requires fn <= sn && sn > 0
    requires side == if fn % 2 == 1 || fn == sn then Left else Right
    ensures fn' <= sn'
    ensures Walk(fn, sn) == [side] + Walk(fn', sn')
  {
    fn', sn' := fn, sn;
    if fn % 2 == 1 || fn == sn {
      if fn % 2 != 1 {
        while fn' % 2 != 1 && fn' != 0
          invariant 0 < fn' == sn'
          invariant OddPart(fn') == OddPart(fn)
        {
          fn' := fn' / 2;
          sn' := sn' / 2;
        }
      }
    }
    fn' := fn' / 2;
    sn' := sn' / 2;
  }

  method VerifyInclusion(sha: Sha, leaf: bytes, index: int, treeSize: int, root: bytes, proof: seq<bytes>)
    returns (v: Verdict)
    ensures v == InclusionVerdict(sha, leaf, index, treeSize, root, proof)
  {
    if |leaf| != 32 || |root| != 32 { return Refuse(BadProofElement); }
    if !IsSize(treeSize) { return Refuse(BadSize); }
    if !IsSize(index) { return Refuse(BadIndex); }
    if index >= treeSize { return Refuse(IndexOutOfRange); }
    var parsed := ParseProof(proof);
    if parsed.Err? { return Refuse(parsed.error); }
    v := ClimbLeaf(sha, leaf, index, treeSize, root, parsed.value);
  }

  /** One side taken off the front of what is left to climb. */
  lemma {:induction false} NextSide(side: Side, rest: seq<Side>, sides: seq<Side>, i: nat)
    requires i < |sides| && sides[i..] == [side] + rest
    ensures sides[i] == side && rest == sides[i + 1..]
  {
    assert sides[i..][0] == sides[i];
    assert sides[i..][1..] == sides[i + 1..];
  }

  /** The loop of verifyInclusion. */
  method ClimbLeaf(sha: Sha, leaf: Digest, index: nat, treeSize: nat, root: Digest, nodes: seq<Digest>)
    returns (v: Verdict)
    requires index < treeSize
    ensures v == LeafVerdict(sha, leaf, index, treeSize, root, nodes)
  {
    hide LeafSides, Split, TopBit, Fits, OddPart, Walk, Climb;
    WalkStep(index, treeSize - 1);
    ClimbNothing(sha, leaf);
    var fn: nat, sn: nat := index, treeSize - 1;
    var r: Digest := leaf;
    ghost var sides := LeafSides(index, treeSize);
    WalkIsLeafSides(index, treeSize);
    for i := 0 to |nodes|
      invariant i <= |sides| && fn <= sn
      invariant Walk(fn, sn) == sides[i..] && (sn == 0 <==> sides[i..] == [])
      invariant r == Climb(sha, sides[..i], leaf, nodes[..i])
    {
      if sn == 0 {
        return Refuse(ProofTooLong);
      }
      var p := nodes[i];
      ClimbStep(sha, sides, leaf, nodes, i);
      if fn % 2 == 1 || fn == sn {
        r := HashPair(sha, p, r);
        fn, sn := Shift(fn, sn, Left);
        NextSide(Left, Walk(fn, sn), sides, i);
      } else {
        r := HashPair(sha, r, p);
        fn, sn := Shift(fn, sn, Right);
        NextSide(Right, Walk(fn, sn), sides, i);
      }
      WalkStep(fn, sn);
    }
    assert nodes[..|nodes|] == nodes;
    if sn != 0 {
      return Refuse(ProofTooShort);
    }
    assert sides[..|nodes|] == sides;
    if r != root {
      return Refuse(RootMismatch);
    }
    return Accept;
  }

  method VerifyConsistency(sha: Sha, m: int, n: int, oldRoot: bytes, newRoot: bytes, proof: seq<bytes>)
    returns (v: Verdict)
    ensures v == ConsistencyVerdict(sha, m, n, oldRoot, newRoot, proof)
  {
    if !IsSize(m) || !IsSize(n) { return Refuse(BadSize); }
    if |oldRoot| != 32 || |newRoot| != 32 { return Refuse(BadProofElement); }
    var parsed := ParseProof(proof);
    if parsed.Err? { return Refuse(parsed.error); }
    if m > n { return Refuse(MGreaterThanN); }
    if m == 0 {
      if parsed.value != [] { return Refuse(ProofNotEmpty); }
      if oldRoot != EmptyRoot(sha) { return Refuse(RootMismatch); }
      if n == 0 && newRoot != EmptyRoot(sha) { return Refuse(RootMismatch); }
      return Accept;
    }
    if m == n {
      if parsed.value != [] { return Refuse(ProofNotEmpty); }
      if oldRoot != newRoot { return Refuse(RootMismatch); }
      return Accept;
    }
    if parsed.value == [] { return Refuse(ProofTooShort); }
    var nodes := parsed.value;
    var whole := IsPowerOfTwo(m);
    if whole { nodes := [oldRoot] + nodes; }
    var fn: nat, sn: nat := m - 1, n - 1;
    while fn % 2 == 1
      invariant fn < sn
      invariant Strip(fn, sn) == Strip(m - 1, n - 1)
      decreases fn
    {
      fn := fn / 2;
      sn := sn / 2;
    }
    v := ClimbBoth(sha, m, n, oldRoot, newRoot, nodes, fn, sn);
  }

  /** Both hashes of verifyConsistency after climbing i siblings. */
  ghost predicate BothClimbed(
    sha: Sha, sides: seq<Side>, node: Digest, siblings: seq<Digest>, i: nat, fr: Digest, sr: Digest)
    requires i <= |sides| && i <= |siblings|
  {
    && fr == ClimbOld(sha, sides[..i], node, siblings[..i])
    && sr == Climb(sha, sides[..i], node, siblings[..i])
  }

  /** One turn of the main loop: a left sibling enters both hashes, a right one only the new. */
  lemma {:induction false} ClimbTurn(
    sha: Sha, sides: seq<Side>, node: Digest, siblings: seq<Digest>, i: nat, fr: Digest, sr: Digest)
    requires i < |sides| && i < |siblings|
    requires BothClimbed(sha, sides, node, siblings, i, fr, sr)
    ensures var c := siblings[i];
            if sides[i].Left? then
              BothClimbed(sha, sides, node, siblings, i + 1, HashPair(sha, c, fr), HashPair(sha, c, sr))
            else
              BothClimbed(sha, sides, node, siblings, i + 1, fr, HashPair(sha, sr, c))
  {
    hide Climb, ClimbOld, HashPair;
    ClimbStep(sha, sides, node, siblings, i);
  }

  /** The main loop of verifyConsistency, from the stripped counters on. */
  method ClimbBoth(sha: Sha, m: nat, n: nat, oldRoot: Digest, newRoot: Digest, nodes: seq<Digest>, fn0: nat, sn0: nat)
    returns (v: Verdict)
    requires 0 < m < n && nodes != []
    requires (fn0, sn0) == Strip(m - 1, n - 1)
    ensures v == ExtensionVerdict(sha, m, n, oldRoot, newRoot, nodes)
  {
    hide PrefixSides, Split, TopBit, Fits, OddPart, Strip, Walk, Climb, ClimbOld, Join, HashPair;
    WalkStep(fn0, sn0);
    ClimbNothing(sha, nodes[0]);
    var fn, sn := fn0, sn0;
    var fr, sr := nodes[0], nodes[0];
    ghost var sides, siblings := PrefixSides(m, n), nodes[1..];
    WalkIsPrefixSides(m, n);
    for i := 1 to |nodes|
      invariant i - 1 <= |sides| && fn <= sn
      invariant Walk(fn, sn) == sides[i - 1..] && (sn == 0 <==> sides[i - 1..] == [])
      invariant BothClimbed(sha, sides, nodes[0], siblings, i - 1, fr, sr)
    {
      if sn == 0 {
        return Refuse(ProofTooLong);
      }
      var c := nodes[i];
      ClimbTurn(sha, sides, nodes[0], siblings, i - 1, fr, sr);
      if fn % 2 == 1 || fn == sn {
        fr := HashPair(sha, c, fr);
        sr := HashPair(sha, c, sr);
        fn, sn := Shift(fn, sn, Left);
        NextSide(Left, Walk(fn, sn), sides, i - 1);
      } else {
        sr := HashPair(sha, sr, c);
        fn, sn := Shift(fn, sn, Right);
        NextSide(Right, Walk(fn, sn), sides, i - 1);
      }
      WalkStep(fn, sn);
    }
    assert siblings[..|nodes| - 1] == siblings;
    if sn != 0 {
      return Refuse(ProofTooShort);
    }
    assert sides[..|nodes| - 1] == sides;
    if fr != oldRoot { return Refuse(RootMismatch); }
    if sr != newRoot { return Refuse(RootMismatch); }
    return Accept;
  }

  // ---- the generators' entry points ----------------------------------------

  function InclusionProof(sha: Sha, entries: seq<bytes>, index: int): Result<seq<Digest>, Reason> {
    if !IsSize(index) then Err(BadIndex)
    else if index >= |entries| then Err(IndexOutOfRange)
    else Ok(PathRange(sha, entries, 0, |entries|, index))
  }

  function ConsistencyProof(sha: Sha, entries: seq<bytes>, m: int, n: int): Result<seq<Digest>, Reason> {
    if !IsSize(m) || !IsSize(n) then Err(BadSize)
    else if n > |entries| then Err(BadSize)
    else if m > n then Err(MGreaterThanN)
    else if m == 0 || m == n then Ok([])
    else Ok(SubproofRange(sha, entries, 0, n, m, true))
  }
}
