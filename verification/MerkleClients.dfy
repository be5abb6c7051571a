/**
 * What the verifiers of merkle/index.js give a client that never sees the entries:
 * an accepted inclusion carries over to every later head that is accepted after it,
 * so two accepted claims about one index agree, or two hash inputs are computed
 * that collide.
 */
module MerkleClients {
  import opened Bytes
  import opened MerkleTree
  import opened MerkleVerify
  import opened MerkleTheorems

  // ---- two climbs to one root ----------------------------------------------

  /** The first place, from the top, where two climbs along the same sides feed the hash differently. */
  function ClimbsApart(
    sha: Sha, sides: seq<Side>, a: Digest, p: seq<Digest>, b: Digest, q: seq<Digest>) : Option<(bytes, bytes)>
    requires |sides| == |p| == |q|
    decreases |sides|
  {
    if |sides| == 0 then None
    else
      var last := |sides| - 1;
      var fedA := Fed(sides[last], Climb(sha, sides[..last], a, p[..last]), p[last]);
      var fedB := Fed(sides[last], Climb(sha, sides[..last], b, q[..last]), q[last]);
      if fedA != fedB then Some((fedA, fedB)) else ClimbsApart(sha, sides[..last], a, p[..last], b, q[..last])
  }

  /** Climbs along the same sides to one root start from one hash with one list of siblings. */
  lemma {:induction false} ClimbsAgree(
    sha: Sha, sides: seq<Side>, a: Digest, p: seq<Digest>, b: Digest, q: seq<Digest>)
    requires |sides| == |p| == |q| && Climb(sha, sides, a, p) == Climb(sha, sides, b, q)
    ensures match ClimbsApart(sha, sides, a, p, b, q)
            case Some(pair) => IsCollision(sha, pair)
            case None => a == b && p == q
    decreases |sides|
  {
    hide Fed, Climb;
    if |sides| == 0 {
      assert sides == [] && p == [] && q == [];
      ClimbNothing(sha, a);
      ClimbNothing(sha, b);
    } else {
      var last := |sides| - 1;
      var belowA, belowB := Climb(sha, sides[..last], a, p[..last]), Climb(sha, sides[..last], b, q[..last]);
      ClimbTop(sha, sides, a, p);
      ClimbTop(sha, sides, b, q);
      if Fed(sides[last], belowA, p[last]) == Fed(sides[last], belowB, q[last]) {
        FedInjective(sides[last], belowA, p[last], belowB, q[last]);
        ClimbsAgree(sha, sides[..last], a, p[..last], b, q[..last]);
        LastApart(p);
        LastApart(q);
      }
    }
  }

  // ---- one head, one earlier head of each size -----------------------------

  /** The collision behind two accepted heads of one size before one head. */
  function HeadsApart(
    sha: Sha, m: nat, n: nat, old1: bytes, proof1: seq<bytes>, old2: bytes, proof2: seq<bytes>)
    : Option<(bytes, bytes)>
  {
    if 0 < m < n && |old1| == |old2| == 32 && ParsedProof(proof1).Ok? && ParsedProof(proof2).Ok? then
      var nodes1 := ConsistencyNodes(m, old1, ParsedProof(proof1).value);
      var nodes2 := ConsistencyNodes(m, old2, ParsedProof(proof2).value);
      if |nodes1| == |nodes2| == |PrefixSides(m, n)| + 1 then
        ClimbsApart(sha, PrefixSides(m, n), nodes1[0], nodes1[1..], nodes2[0], nodes2[1..])
      else None
    else None
  }

  /** Whatever the entries are, a head accepts one earlier head of each size, or a collision is named. */
  lemma {:induction false} HeadPinsEarlier(
    sha: Sha, m: nat, n: nat, old1: bytes, proof1: seq<bytes>, old2: bytes, proof2: seq<bytes>, newRoot: bytes)
    requires ConsistencyVerdict(sha, m, n, old1, newRoot, proof1) == Accept
    requires ConsistencyVerdict(sha, m, n, old2, newRoot, proof2) == Accept
    ensures match HeadsApart(sha, m, n, old1, proof1, old2, proof2)
            case Some(pair) => IsCollision(sha, pair)
            case None => old1 == old2
  {
    hide ConsistencyVerdict, ExtensionVerdict, ConsistencyNodes, PrefixSides, ClimbsApart, Climb, ClimbOld;
    AcceptedEnds(sha, m, n, old1, newRoot, proof1);
    AcceptedEnds(sha, m, n, old2, newRoot, proof2);
    if 0 < m < n {
      AcceptedExtension(sha, m, n, old1, newRoot, proof1);
      AcceptedExtension(sha, m, n, old2, newRoot, proof2);
      var nodes1 := ConsistencyNodes(m, old1, ParsedProof(proof1).value);
      var nodes2 := ConsistencyNodes(m, old2, ParsedProof(proof2).value);
      ExtensionClimbs(sha, m, n, old1, newRoot, nodes1);
      ExtensionClimbs(sha, m, n, old2, newRoot, nodes2);
      ClimbsAgree(sha, PrefixSides(m, n), nodes1[0], nodes1[1..], nodes2[0], nodes2[1..]);
    }
  }

  /** The two climbs of an accepted extension. */
  lemma {:induction false} ExtensionClimbs(
    sha: Sha, m: nat, n: nat, oldRoot: Digest, newRoot: Digest, nodes: seq<Digest>)
    requires 0 < m < n && nodes != [] && ExtensionVerdict(sha, m, n, oldRoot, newRoot, nodes) == Accept
    ensures |nodes| == |PrefixSides(m, n)| + 1
    ensures ClimbOld(sha, PrefixSides(m, n), nodes[0], nodes[1..]) == oldRoot
    ensures Climb(sha, PrefixSides(m, n), nodes[0], nodes[1..]) == newRoot
  {
    hide PrefixSides, Climb, ClimbOld;
  }

  // ---- carrying an inclusion path over -------------------------------------

  /** The sides of a leaf and of a prefix, one level down from the top of the larger tree. */
  lemma {:induction false} SidesTop(i: nat, m: nat, n: nat)
    requires i < m < n
    ensures var k := Split(n);
            && LeafSides(i, n) == (if i < k then LeafSides(i, k) + [Right] else LeafSides(i - k, n - k) + [Left])
            && PrefixSides(m, n) == (if m <= k then PrefixSides(m, k) + [Right] else PrefixSides(m - k, n - k) + [Left])
            && (m > k ==>
                  LeafSides(i, m) == if i < k then LeafSides(i, k) + [Right] else LeafSides(i - k, m - k) + [Left])
  {
    hide Split, Fits;
    if m > Split(n) {
      SplitOfPrefix(m, n);
    }
  }

  /** The siblings and the path have the lengths that the climbs of the two trees need. */
  predicate Fit(i: nat, m: nat, n: nat, siblings: seq<Digest>, path: seq<Digest>)
    requires i < m <= n
  {
    |siblings| == |PrefixSides(m, n)| && |path| == |LeafSides(i, m)|
  }

  /** One level down, they still have. */
  lemma {:induction false} FitTop(i: nat, m: nat, n: nat, siblings: seq<Digest>, path: seq<Digest>)
    requires i < m < n && Fit(i, m, n, siblings, path)
    ensures var k, last := Split(n), |siblings| - 1;
            && siblings != []
            && (m <= k ==> Fit(i, m, k, siblings[..last], path))
            && (m > k ==> path != [] && last == |PrefixSides(m - k, n - k)|)
            && (m > k && i < k ==> |path| == |LeafSides(i, k)| + 1)
            && (m > k && i >= k ==> Fit(i - k, m - k, n - k, siblings[..last], path[..|path| - 1]))
  {
    hide Split, LeafSides, PrefixSides, Fits;
    SidesTop(i, m, n);
  }

  /**
   * The inclusion path in the larger tree that an inclusion path in the smaller one and
   * the nodes of a consistency proof give together. Lists that do not fit are not extended.
   */
  function ExtendPath(sha: Sha, i: nat, m: nat, n: nat, node: Digest, siblings: seq<Digest>, path: seq<Digest>)
    : seq<Digest>
    requires i < m <= n
    decreases n
  {
    if m == n || siblings == [] then path
    else
      var k, last := Split(n), |siblings| - 1;
      if m <= k then
        ExtendPath(sha, i, m, k, node, siblings[..last], path) + [siblings[last]]
      else if path == [] || last != |PrefixSides(m - k, n - k)| then path
      else if i < k then
        path[..|path| - 1] + [Climb(sha, PrefixSides(m - k, n - k), node, siblings[..last])]
      else
        ExtendPath(sha, i - k, m - k, n - k, node, siblings[..last], path[..|path| - 1]) + [siblings[last]]
  }

  /** Where the inclusion path and the consistency proof disagree about the smaller tree. */
  function ExtendCollision(
    sha: Sha, i: nat, m: nat, n: nat, node: Digest, siblings: seq<Digest>, leaf: Digest, path: seq<Digest>)
    : Option<(bytes, bytes)>
    requires i < m <= n
    decreases n
  {
    if m == n || siblings == [] then None
    else
      var k, last := Split(n), |siblings| - 1;
      if m <= k then ExtendCollision(sha, i, m, k, node, siblings[..last], leaf, path)
      else if path == [] || last != |PrefixSides(m - k, n - k)| then None
      else
        var shown := Fed(Left, ClimbOld(sha, PrefixSides(m - k, n - k), node, siblings[..last]), siblings[last]);
        match TopFed(sha, i, k, m, leaf, path)
        case None => None
        case Some(climbed) =>
          if climbed != shown then Some((climbed, shown))
          else if i < k then None
          else ExtendCollision(sha, i - k, m - k, n - k, node, siblings[..last], leaf, path[..|path| - 1])
  }

  /** What the top step of the climb in the smaller tree feeds the hash. */
  function TopFed(sha: Sha, i: nat, k: nat, m: nat, leaf: Digest, path: seq<Digest>): Option<bytes>
    requires i < m && k < m && path != []
  {
    var top := |path| - 1;
    if i < k then
      if top != |LeafSides(i, k)| then None
      else Some(Fed(Right, Climb(sha, LeafSides(i, k), leaf, path[..top]), path[top]))
    else if top != |LeafSides(i - k, m - k)| then None
    else Some(Fed(Left, Climb(sha, LeafSides(i - k, m - k), leaf, path[..top]), path[top]))
  }

  /** One level of the extension and of the search for a collision, for lists that fit. */
  lemma {:induction false} ExtendLevel(
    sha: Sha, i: nat, m: nat, n: nat, node: Digest, siblings: seq<Digest>, leaf: Digest, path: seq<Digest>)
    requires i < m < n && Fit(i, m, n, siblings, path)
    ensures siblings != []
    ensures var (k, last) := (Split(n), |siblings| - 1);
            var (down, top) := (siblings[..last], siblings[last]);
            var (grown, hit) := (ExtendPath(sha, i, m, n, node, siblings, path),
                                 ExtendCollision(sha, i, m, n, node, siblings, leaf, path));
            if m <= k then
              && Fit(i, m, k, down, path)
              && grown == ExtendPath(sha, i, m, k, node, down, path) + [top]
              && hit == ExtendCollision(sha, i, m, k, node, down, leaf, path)
            else
              && path != [] && last == |PrefixSides(m - k, n - k)|
              && var (shorter, pathTop) := (path[..|path| - 1], path[|path| - 1]);
                 var shown := Fed(Left, ClimbOld(sha, PrefixSides(m - k, n - k), node, down), top);
                 if i < k then
                   && |shorter| == |LeafSides(i, k)|
                   && var climbed := Fed(Right, Climb(sha, LeafSides(i, k), leaf, shorter), pathTop);
                      && grown == shorter + [Climb(sha, PrefixSides(m - k, n - k), node, down)]
                      && hit == if climbed != shown then Some((climbed, shown)) else None
                 else
                   && Fit(i - k, m - k, n - k, down, shorter)
                   && var climbed := Fed(Left, Climb(sha, LeafSides(i - k, m - k), leaf, shorter), pathTop);
                      && grown == ExtendPath(sha, i - k, m - k, n - k, node, down, shorter) + [top]
                      && hit == if climbed != shown then Some((climbed, shown))
                                else ExtendCollision(sha, i - k, m - k, n - k, node, down, leaf, shorter)
  {
    hide Split, LeafSides, PrefixSides, Fits, Fed, Climb, ClimbOld;
    FitTop(i, m, n, siblings, path);
  }

  /** Lists that fit are extended to a path of the larger tree. */
  lemma {:induction false} ExtendLength(
    sha: Sha, i: nat, m: nat, n: nat, node: Digest, siblings: seq<Digest>, path: seq<Digest>)
    requires i < m <= n && Fit(i, m, n, siblings, path)
    ensures |ExtendPath(sha, i, m, n, node, siblings, path)| == |LeafSides(i, n)|
    decreases n
  {
    hide Split, LeafSides, PrefixSides, Fits, Fed, Climb, ClimbOld, ExtendPath, ExtendCollision;
    if m < n {
      ExtendLevel(sha, i, m, n, node, siblings, node, path);
      SidesTop(i, m, n);
      var k, last := Split(n), |siblings| - 1;
      if m <= k {
        ExtendLength(sha, i, m, k, node, siblings[..last], path);
      } else if i >= k {
        ExtendLength(sha, i - k, m - k, n - k, node, siblings[..last], path[..|path| - 1]);
      }
    } else {
      ExtendNothing(sha, i, m, node, siblings, node, path);
    }
  }

  lemma {:induction false} ExtendNothing(
    sha: Sha, i: nat, m: nat, node: Digest, siblings: seq<Digest>, leaf: Digest, path: seq<Digest>)
    requires i < m && Fit(i, m, m, siblings, path)
    ensures ExtendPath(sha, i, m, m, node, siblings, path) == path
    ensures ExtendCollision(sha, i, m, m, node, siblings, leaf, path) == None
    ensures ClimbOld(sha, PrefixSides(m, m), node, siblings) == Climb(sha, PrefixSides(m, m), node, siblings)
  {
    hide LeafSides;
  }

  /** A climb with one more side and one more sibling. */
  lemma {:induction false} ClimbSnoc(sha: Sha, sides: seq<Side>, side: Side, node: Digest, siblings: seq<Digest>)
    requires |siblings| == |sides| + 1
    ensures var last := |siblings| - 1;
            && Climb(sha, sides + [side], node, siblings)
               == sha(Fed(side, Climb(sha, sides, node, siblings[..last]), siblings[last]))
            && ClimbOld(sha, sides + [side], node, siblings)
               == if side.Right? then ClimbOld(sha, sides, node, siblings[..last])
                  else sha(Fed(Left, ClimbOld(sha, sides, node, siblings[..last]), siblings[last]))
  {
    assert (sides + [side])[..|sides|] == sides;
  }

  /** A climb with one more side, the sibling given apart. */
  lemma {:induction false} ClimbPlus(
    sha: Sha, sides: seq<Side>, side: Side, node: Digest, siblings: seq<Digest>, top: Digest)
    requires |siblings| == |sides|
    ensures Climb(sha, sides + [side], node, siblings + [top])
         == sha(Fed(side, Climb(sha, sides, node, siblings), top))
  {
    hide Climb, Fed;
    ClimbSnoc(sha, sides, side, node, siblings + [top]);
    assert (siblings + [top])[..|siblings|] == siblings;
  }

  /** The path climbs to what the consistency nodes show of the smaller tree. */
  predicate Agrees(
    sha: Sha, i: nat, m: nat, n: nat, node: Digest, siblings: seq<Digest>, leaf: Digest, path: seq<Digest>)
    requires i < m <= n
  {
    Fit(i, m, n, siblings, path)
    && Climb(sha, LeafSides(i, m), leaf, path) == ClimbOld(sha, PrefixSides(m, n), node, siblings)
  }

  /** The extended path climbs to what they show of the larger tree, or a collision is named. */
  predicate Extends(
    sha: Sha, i: nat, m: nat, n: nat, node: Digest, siblings: seq<Digest>, leaf: Digest, path: seq<Digest>)
    requires i < m <= n
  {
    var longer := ExtendPath(sha, i, m, n, node, siblings, path);
    match ExtendCollision(sha, i, m, n, node, siblings, leaf, path)
    case Some(pair) => IsCollision(sha, pair)
    case None =>
      Fit(i, m, n, siblings, path) && |longer| == |LeafSides(i, n)|
      && Climb(sha, LeafSides(i, n), leaf, longer) == Climb(sha, PrefixSides(m, n), node, siblings)
  }

  /** Whatever path and consistency nodes agree on the smaller tree, the path extends. */
  lemma {:induction false} ExtendSound(
    sha: Sha, i: nat, m: nat, n: nat, node: Digest, siblings: seq<Digest>, leaf: Digest, path: seq<Digest>)
    requires i < m <= n && Agrees(sha, i, m, n, node, siblings, leaf, path)
    ensures Extends(sha, i, m, n, node, siblings, leaf, path)
    decreases n
  {
    hide Split, Climb, LeafSides, PrefixSides, Fits, Agrees, Extends, Fit;
    if m == n {
      ExtendsNothing(sha, i, m, node, siblings, leaf, path);
    } else {
      AgreesFit(sha, i, m, n, node, siblings, leaf, path);
      FitTop(i, m, n, siblings, path);
      var k, last := Split(n), |siblings| - 1;
      if m <= k {
        AgreesInside(sha, i, m, n, node, siblings, leaf, path);
        ExtendSound(sha, i, m, k, node, siblings[..last], leaf, path);
        ExtendInside(sha, i, m, n, node, siblings, leaf, path);
      } else if i < k {
        ExtendLeft(sha, i, m, n, node, siblings, leaf, path);
      } else {
        var shorter := path[..|path| - 1];
        if Agrees(sha, i - k, m - k, n - k, node, siblings[..last], leaf, shorter) {
          ExtendSound(sha, i - k, m - k, n - k, node, siblings[..last], leaf, shorter);
        }
        ExtendRight(sha, i, m, n, node, siblings, leaf, path);
      }
    }
  }

  lemma {:induction false} AgreesFit(
    sha: Sha, i: nat, m: nat, n: nat, node: Digest, siblings: seq<Digest>, leaf: Digest, path: seq<Digest>)
    requires i < m <= n && Agrees(sha, i, m, n, node, siblings, leaf, path)
    ensures Fit(i, m, n, siblings, path)
  {
    hide Fit, Climb, ClimbOld;
  }

  lemma {:induction false} ExtendsNothing(
    sha: Sha, i: nat, m: nat, node: Digest, siblings: seq<Digest>, leaf: Digest, path: seq<Digest>)
    requires i < m && Agrees(sha, i, m, m, node, siblings, leaf, path)
    ensures Extends(sha, i, m, m, node, siblings, leaf, path)
  {
    hide Climb, ClimbOld, LeafSides, PrefixSides, ExtendPath, ExtendCollision;
    ExtendNothing(sha, i, m, node, siblings, leaf, path);
  }

  /** The smaller tree lies in the left subtree of the larger one. */
  lemma {:induction false} AgreesInside(
    sha: Sha, i: nat, m: nat, n: nat, node: Digest, siblings: seq<Digest>, leaf: Digest, path: seq<Digest>)
    requires i < m < n && m <= Split(n) && Agrees(sha, i, m, n, node, siblings, leaf, path)
    ensures siblings != [] && Agrees(sha, i, m, Split(n), node, siblings[..|siblings| - 1], leaf, path)
  {
    hide Split, Fed, Climb, ClimbOld, LeafSides, PrefixSides, Fits;
    FitTop(i, m, n, siblings, path);
    SidesTop(i, m, n);
    ClimbSnoc(sha, PrefixSides(m, Split(n)), Right, node, siblings);
  }

  lemma {:induction false} ExtendInside(
    sha: Sha, i: nat, m: nat, n: nat, node: Digest, siblings: seq<Digest>, leaf: Digest, path: seq<Digest>)
    requires i < m < n && m <= Split(n) && Fit(i, m, n, siblings, path) && siblings != []
    requires Extends(sha, i, m, Split(n), node, siblings[..|siblings| - 1], leaf, path)
    ensures Extends(sha, i, m, n, node, siblings, leaf, path)
  {
    hide Split, Fed, Climb, ClimbOld, LeafSides, PrefixSides, Fits, ExtendPath, ExtendCollision, IsCollision;
    SidesTop(i, m, n);
    ExtendLevel(sha, i, m, n, node, siblings, leaf, path);
    var k, last := Split(n), |siblings| - 1;
    ClimbSnoc(sha, PrefixSides(m, k), Right, node, siblings);
    if ExtendCollision(sha, i, m, n, node, siblings, leaf, path).None? {
      var longer := ExtendPath(sha, i, m, k, node, siblings[..last], path);
      ClimbPlus(sha, LeafSides(i, k), Right, leaf, longer, siblings[last]);
    }
  }

  /** The leaf lies under the left subtree, which both trees have: only the top sibling changes. */
  lemma {:induction false} ExtendLeft(
    sha: Sha, i: nat, m: nat, n: nat, node: Digest, siblings: seq<Digest>, leaf: Digest, path: seq<Digest>)
    requires i < m < n && i < Split(n) < m && Agrees(sha, i, m, n, node, siblings, leaf, path)
    ensures Extends(sha, i, m, n, node, siblings, leaf, path)
  {
    hide Split, Fed, Climb, ClimbOld, LeafSides, PrefixSides, Fits, ExtendPath, ExtendCollision;
    SidesTop(i, m, n);
    ExtendLevel(sha, i, m, n, node, siblings, leaf, path);
    ExtendLength(sha, i, m, n, node, siblings, path);
    var k, last, top := Split(n), |siblings| - 1, |path| - 1;
    ClimbSnoc(sha, PrefixSides(m - k, n - k), Left, node, siblings);
    ClimbSnoc(sha, LeafSides(i, k), Right, leaf, path);
    var shown := ClimbOld(sha, PrefixSides(m - k, n - k), node, siblings[..last]);
    var climbed := Climb(sha, LeafSides(i, k), leaf, path[..top]);
    var grown := Climb(sha, PrefixSides(m - k, n - k), node, siblings[..last]);
    ClimbPlus(sha, LeafSides(i, k), Right, leaf, path[..top], grown);
    if Fed(Right, climbed, path[top]) == Fed(Left, shown, siblings[last]) {
      FedMirror(climbed, path[top], shown, siblings[last]);
      FedSwap(climbed, grown);
    }
  }

  /** The leaf lies under the right subtree, which grows. */
  lemma {:induction false} ExtendRight(
    sha: Sha, i: nat, m: nat, n: nat, node: Digest, siblings: seq<Digest>, leaf: Digest, path: seq<Digest>)
    requires i < m < n && Split(n) <= i && Agrees(sha, i, m, n, node, siblings, leaf, path)
    requires siblings != [] && path != []
    requires var (k, down, shorter) := (Split(n), siblings[..|siblings| - 1], path[..|path| - 1]);
             Agrees(sha, i - k, m - k, n - k, node, down, leaf, shorter) ==>
               Extends(sha, i - k, m - k, n - k, node, down, leaf, shorter)
    ensures Extends(sha, i, m, n, node, siblings, leaf, path)
  {
    hide Split, Fed, Climb, ClimbOld, LeafSides, PrefixSides, Fits, ExtendPath, ExtendCollision;
    SidesTop(i, m, n);
    ExtendLevel(sha, i, m, n, node, siblings, leaf, path);
    var k, last, top := Split(n), |siblings| - 1, |path| - 1;
    ClimbSnoc(sha, PrefixSides(m - k, n - k), Left, node, siblings);
    ClimbSnoc(sha, LeafSides(i - k, m - k), Left, leaf, path);
    var shown := ClimbOld(sha, PrefixSides(m - k, n - k), node, siblings[..last]);
    var climbed := Climb(sha, LeafSides(i - k, m - k), leaf, path[..top]);
    if Fed(Left, climbed, path[top]) == Fed(Left, shown, siblings[last]) {
      FedInjective(Left, climbed, path[top], shown, siblings[last]);
      if ExtendCollision(sha, i, m, n, node, siblings, leaf, path).None? {
        var longer := ExtendPath(sha, i - k, m - k, n - k, node, siblings[..last], path[..top]);
        ClimbPlus(sha, LeafSides(i - k, n - k), Left, leaf, longer, siblings[last]);
      }
    }
  }

  lemma {:induction false} FedSwap(a: Digest, b: Digest)
    ensures Fed(Right, a, b) == Fed(Left, b, a)
  {
  }

  lemma {:induction false} FedMirror(a: Digest, b: Digest, c: Digest, e: Digest)
    requires Fed(Right, a, b) == Fed(Left, c, e)
    ensures a == e && b == c
  {
    PairInjective(a, b, e, c);
  }

  // ---- verdicts ------------------------------------------------------------

  /** What an accepted inclusion has passed. */
  lemma {:induction false} AcceptedLeaf(sha: Sha, leaf: bytes, i: int, m: int, root: bytes, path: seq<bytes>)
    requires InclusionVerdict(sha, leaf, i, m, root, path) == Accept
    ensures |leaf| == |root| == 32 && 0 <= i < m && IsSize(m) && ParsedProof(path) == Ok(path)
    ensures |path| == |LeafSides(i, m)| && Climb(sha, LeafSides(i, m), leaf, path) == root
  {
    hide LeafSides, Climb;
  }

  /** What makes an inclusion accepted. */
  lemma {:induction false} AcceptLeaf(sha: Sha, leaf: Digest, i: nat, m: nat, root: Digest, path: seq<Digest>)
    requires i < m && IsSize(m)
    requires |path| == |LeafSides(i, m)| && Climb(sha, LeafSides(i, m), leaf, path) == root
    ensures InclusionVerdict(sha, leaf, i, m, root, path) == Accept
  {
    hide LeafSides, Climb, Fits;
    SizeFitsProofCap(LeafSides(i, m), m);
  }

  /** A step from one accepted head to the next. */
  datatype HeadStep = HeadStep(m: nat, oldRoot: bytes, n: nat, proof: seq<bytes>)

  /** The step's proof has nodes for the climbs of the two sizes. */
  predicate Climbable(step: HeadStep) {
    && 0 < step.m < step.n && |step.oldRoot| == 32 && ParsedProof(step.proof).Ok?
    && |ConsistencyNodes(step.m, step.oldRoot, ParsedProof(step.proof).value)| == |PrefixSides(step.m, step.n)| + 1
  }

  function StepNodes(step: HeadStep): seq<Digest>
    requires Climbable(step)
  {
    ConsistencyNodes(step.m, step.oldRoot, ParsedProof(step.proof).value)
  }

  /** The path a client can show against the later head. */
  function CarriedPath(sha: Sha, step: HeadStep, i: nat, path: seq<bytes>): seq<bytes> {
    if Climbable(step) && i < step.m && ParsedProof(path).Ok? && |path| == |LeafSides(i, step.m)| then
      var nodes := StepNodes(step);
      ExtendPath(sha, i, step.m, step.n, nodes[0], nodes[1..], ParsedProof(path).value)
    else path
  }

  /** The collision given away when the path does not carry over. */
  function CarryCollision(sha: Sha, step: HeadStep, leaf: bytes, i: nat, path: seq<bytes>): Option<(bytes, bytes)> {
    if Climbable(step) && i < step.m && |leaf| == 32 && ParsedProof(path).Ok? && |path| == |LeafSides(i, step.m)| then
      var nodes := StepNodes(step);
      ExtendCollision(sha, i, step.m, step.n, nodes[0], nodes[1..], leaf, ParsedProof(path).value)
    else None
  }

  /**
   * A leaf accepted against a head is accepted, with the carried path, against every
   * later head that verifyConsistency accepts after it, or a collision is named.
   */
  lemma {:induction false} InclusionCarries(
    sha: Sha, step: HeadStep, newRoot: bytes, leaf: bytes, i: nat, path: seq<bytes>)
    requires ConsistencyVerdict(sha, step.m, step.n, step.oldRoot, newRoot, step.proof) == Accept
    requires InclusionVerdict(sha, leaf, i, step.m, step.oldRoot, path) == Accept
    ensures match CarryCollision(sha, step, leaf, i, path)
            case Some(pair) => IsCollision(sha, pair)
            case None => InclusionVerdict(sha, leaf, i, step.n, newRoot, CarriedPath(sha, step, i, path)) == Accept
  {
    hide ConsistencyVerdict, InclusionVerdict, ExtensionVerdict, LeafSides, PrefixSides, Climb, ClimbOld,
         ConsistencyNodes, ExtendPath, ExtendCollision, ParsedProof, IsCollision;
    var (m, n) := (step.m, step.n);
    AcceptedEnds(sha, m, n, step.oldRoot, newRoot, step.proof);
    AcceptedLeaf(sha, leaf, i, m, step.oldRoot, path);
    if m < n {
      AcceptedExtension(sha, m, n, step.oldRoot, newRoot, step.proof);
      var nodes := ConsistencyNodes(m, step.oldRoot, ParsedProof(step.proof).value);
      ExtensionClimbs(sha, m, n, step.oldRoot, newRoot, nodes);
      ExtendSound(sha, i, m, n, nodes[0], nodes[1..], leaf, path);
      if CarryCollision(sha, step, leaf, i, path).None? {
        AcceptLeaf(sha, leaf, i, n, newRoot, ExtendPath(sha, i, m, n, nodes[0], nodes[1..], path));
      }
    }
  }

  /** The collision behind two inclusions at one index of one head. */
  function LeavesApart(
    sha: Sha, i: nat, n: int, leaf1: bytes, path1: seq<bytes>, leaf2: bytes, path2: seq<bytes>)
    : Option<(bytes, bytes)>
  {
    if i < n && |leaf1| == |leaf2| == 32 && ParsedProof(path1).Ok? && ParsedProof(path2).Ok?
       && |path1| == |path2| == |LeafSides(i, n)|
    then
      ClimbsApart(sha, LeafSides(i, n), leaf1, ParsedProof(path1).value, leaf2, ParsedProof(path2).value)
    else None
  }

  /** One head accepts one leaf and one path at each index, or a collision is named. */
  lemma {:induction false} HeadPinsLeaf(
    sha: Sha, i: nat, n: int, root: bytes, leaf1: bytes, path1: seq<bytes>, leaf2: bytes, path2: seq<bytes>)
    requires InclusionVerdict(sha, leaf1, i, n, root, path1) == Accept
    requires InclusionVerdict(sha, leaf2, i, n, root, path2) == Accept
    ensures match LeavesApart(sha, i, n, leaf1, path1, leaf2, path2)
            case Some(pair) => IsCollision(sha, pair)
            case None => leaf1 == leaf2 && path1 == path2
  {
    hide InclusionVerdict, LeafSides, Climb, ClimbsApart, ParsedProof;
    AcceptedLeaf(sha, leaf1, i, n, root, path1);
    AcceptedLeaf(sha, leaf2, i, n, root, path2);
    ClimbsAgree(sha, LeafSides(i, n), leaf1, path1, leaf2, path2);
  }

  // ---- whole runs ----------------------------------------------------------

  function StepOf(heads: seq<Head>, proofs: seq<seq<bytes>>, t: nat): Option<HeadStep>
    requires |heads| == |proofs| + 1 && t < |proofs|
  {
    if heads[t].size < 0 || heads[t + 1].size < 0 then None
    else Some(HeadStep(heads[t].size, heads[t].root, heads[t + 1].size, proofs[t]))
  }

  /** A path shown against head j, carried to head k. */
  function CarriedAlong(
    sha: Sha, heads: seq<Head>, proofs: seq<seq<bytes>>, j: nat, k: nat, i: nat, path: seq<bytes>): seq<bytes>
    requires j <= k < |heads| == |proofs| + 1
    decreases k
  {
    if j == k then path
    else
      var before := CarriedAlong(sha, heads, proofs, j, k - 1, i, path);
      match StepOf(heads, proofs, k - 1)
      case None => before
      case Some(step) => CarriedPath(sha, step, i, before)
  }

  /** The first collision met on the way from head j to head k. */
  function AlongCollision(
    sha: Sha, heads: seq<Head>, proofs: seq<seq<bytes>>, j: nat, k: nat, leaf: bytes, i: nat, path: seq<bytes>)
    : Option<(bytes, bytes)>
    requires j <= k < |heads| == |proofs| + 1
    decreases k
  {
    if j == k then None
    else
      match AlongCollision(sha, heads, proofs, j, k - 1, leaf, i, path)
      case Some(pair) => Some(pair)
      case None =>
        match StepOf(heads, proofs, k - 1)
        case None => None
        case Some(step) => CarryCollision(sha, step, leaf, i, CarriedAlong(sha, heads, proofs, j, k - 1, i, path))
  }

  /** The chain's step between two heads passed verifyConsistency. */
  lemma {:induction false} ChainStep(sha: Sha, heads: seq<Head>, proofs: seq<seq<bytes>>, t: nat)
    requires AcceptedChain(sha, heads, proofs) && t < |proofs|
    ensures StepOf(heads, proofs, t).Some?
    ensures ConsistencyVerdict(
      sha, heads[t].size, heads[t + 1].size, heads[t].root, heads[t + 1].root, proofs[t]) == Accept
  {
    hide ConsistencyVerdict;
    AcceptedEnds(sha, heads[t].size, heads[t + 1].size, heads[t].root, heads[t + 1].root, proofs[t]);
  }

  /** Along an accepted chain, an accepted inclusion carries to every later head. */
  lemma {:induction false} ChainCarries(
    sha: Sha, heads: seq<Head>, proofs: seq<seq<bytes>>, j: nat, k: nat, leaf: bytes, i: nat, path: seq<bytes>)
    requires AcceptedChain(sha, heads, proofs) && j <= k < |heads|
    requires InclusionVerdict(sha, leaf, i, heads[j].size, heads[j].root, path) == Accept
    ensures match AlongCollision(sha, heads, proofs, j, k, leaf, i, path)
            case Some(pair) => IsCollision(sha, pair)
            case None =>
              InclusionVerdict(
                sha, leaf, i, heads[k].size, heads[k].root, CarriedAlong(sha, heads, proofs, j, k, i, path)) == Accept
    decreases k
  {
    hide ConsistencyVerdict, InclusionVerdict, CarryCollision, CarriedPath, IsCollision;
    if j < k {
      ChainCarries(sha, heads, proofs, j, k - 1, leaf, i, path);
      ChainStep(sha, heads, proofs, k - 1);
      if AlongCollision(sha, heads, proofs, j, k - 1, leaf, i, path).None? {
        var before := CarriedAlong(sha, heads, proofs, j, k - 1, i, path);
        InclusionCarries(sha, StepOf(heads, proofs, k - 1).value, heads[k].root, leaf, i, before);
      }
    }
  }

  /** The collision behind two claims about one index, against two heads of the chain. */
  function ClaimsApart(
    sha: Sha, heads: seq<Head>, proofs: seq<seq<bytes>>, j: nat, k: nat, i: nat,
    leaf1: bytes, path1: seq<bytes>, leaf2: bytes, path2: seq<bytes>) : Option<(bytes, bytes)>
    requires j <= k < |heads| == |proofs| + 1
  {
    match AlongCollision(sha, heads, proofs, j, k, leaf1, i, path1)
    case Some(pair) => Some(pair)
    case None =>
      LeavesApart(sha, i, heads[k].size, leaf1, CarriedAlong(sha, heads, proofs, j, k, i, path1), leaf2, path2)
  }

  /**
   * A client that follows an accepted chain and never sees an entry: any two inclusions
   * accepted at one index, against any two of its heads, are of one leaf, and the later
   * path is the earlier one carried over; or the two claims give away a collision.
   */
  lemma {:induction false} ClaimsAgree(
    sha: Sha, heads: seq<Head>, proofs: seq<seq<bytes>>, j: nat, k: nat, i: nat,
    leaf1: bytes, path1: seq<bytes>, leaf2: bytes, path2: seq<bytes>)
    requires AcceptedChain(sha, heads, proofs) && j <= k < |heads|
    requires InclusionVerdict(sha, leaf1, i, heads[j].size, heads[j].root, path1) == Accept
    requires InclusionVerdict(sha, leaf2, i, heads[k].size, heads[k].root, path2) == Accept
    ensures match ClaimsApart(sha, heads, proofs, j, k, i, leaf1, path1, leaf2, path2)
            case Some(pair) => IsCollision(sha, pair)
            case None => leaf1 == leaf2 && path2 == CarriedAlong(sha, heads, proofs, j, k, i, path1)
  {
    hide ConsistencyVerdict, InclusionVerdict, AlongCollision, CarriedAlong, LeavesApart, IsCollision;
    ChainCarries(sha, heads, proofs, j, k, leaf1, i, path1);
    if AlongCollision(sha, heads, proofs, j, k, leaf1, i, path1).None? {
      var carried := CarriedAlong(sha, heads, proofs, j, k, i, path1);
      HeadPinsLeaf(sha, i, heads[k].size, heads[k].root, leaf1, carried, leaf2, path2);
    }
  }

  /** For data: what one head of the chain holds at an index, every later head holds. */
  lemma {:induction false} DataAgrees(
    sha: Sha, heads: seq<Head>, proofs: seq<seq<bytes>>, j: nat, k: nat, i: nat,
    data1: bytes, path1: seq<bytes>, data2: bytes, path2: seq<bytes>)
    requires AcceptedChain(sha, heads, proofs) && j <= k < |heads|
    requires InclusionVerdict(sha, HashLeaf(sha, data1), i, heads[j].size, heads[j].root, path1) == Accept
    requires InclusionVerdict(sha, HashLeaf(sha, data2), i, heads[k].size, heads[k].root, path2) == Accept
    ensures match ClaimsApart(sha, heads, proofs, j, k, i, HashLeaf(sha, data1), path1, HashLeaf(sha, data2), path2)
            case Some(pair) => IsCollision(sha, pair)
            case None => data1 == data2 || IsCollision(sha, ([0] + data1, [0] + data2))
  {
    hide AcceptedChain, InclusionVerdict, ClaimsApart, CarriedAlong;
    ClaimsAgree(sha, heads, proofs, j, k, i, HashLeaf(sha, data1), path1, HashLeaf(sha, data2), path2);
    if data1 != data2 {
      assert ([0] + data1)[1..] == data1 && ([0] + data2)[1..] == data2;
    }
  }
}
