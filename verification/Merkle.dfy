/**
 The Merkle tree of RFC 6962, section 2.1: tree hash, audit paths and consistency
 proofs, and the two checks that a client performs on them.

 D[lo:lo+n] of the standard is written as a start and a length, so that every subtree
 refers to the one list of leaves of its log.
 */
module Merkle {
  import opened Bytes
  import opened Hashing

  predicate IsPow2(n: nat) {
    n == 1 || (n > 1 && n % 2 == 0 && IsPow2(n / 2))
  }

  /** The largest power of two smaller than n. */
  function SplitPoint(n: nat): (k: nat)
    requires n > 1
    ensures IsPow2(k) && 0 < k < n <= 2 * k
  {
    if n == 2 then 1 else 2 * SplitPoint((n + 1) / 2)
  }

  lemma {:induction false} Pow2Unique(a: nat, b: nat)
    requires IsPow2(a) && IsPow2(b) && a < 2 * b && b < 2 * a
    ensures a == b
  {
    if a > 1 && b > 1 {
      Pow2Unique(a / 2, b / 2);
    }
  }

  lemma SplitPointUnique(n: nat, k: nat)
    requires n > 1 && IsPow2(k) && k < n <= 2 * k
    ensures SplitPoint(n) == k
  {
    Pow2Unique(SplitPoint(n), k);
  }

  function LeafInput(data: bytes): bytes { [0] + data }

  function NodeInput(left: bytes, right: bytes): bytes { [1] + left + right }

  function LeafHash(h: HashFn, data: bytes): (r: bytes)
    ensures |r| == HASH_SIZE
  {
    h(LeafInput(data))
  }

  function NodeHash(h: HashFn, left: bytes, right: bytes): (r: bytes)
    ensures |r| == HASH_SIZE
  {
    h(NodeInput(left, right))
  }

  /** MTH(D[lo:lo+n]). */
  function RangeRoot(h: HashFn, D: seq<bytes>, lo: nat, n: nat): (r: bytes)
    requires lo + n <= |D|
    ensures |r| == HASH_SIZE
    decreases n
  {
    if n == 0 then h([])
    else if n == 1 then LeafHash(h, D[lo])
    else
      var k := SplitPoint(n);
      NodeHash(h, RangeRoot(h, D, lo, k), RangeRoot(h, D, lo + k, n - k))
  }

  function Root(h: HashFn, D: seq<bytes>): bytes { RangeRoot(h, D, 0, |D|) }

  /** PATH(m, D[lo:lo+n]), lowest sibling first. */
  function RangePath(h: HashFn, m: nat, D: seq<bytes>, lo: nat, n: nat): seq<bytes>
    requires m < n && lo + n <= |D|
    decreases n
  {
    if n == 1 then []
    else
      var k := SplitPoint(n);
      if m < k then RangePath(h, m, D, lo, k) + [RangeRoot(h, D, lo + k, n - k)]
      else RangePath(h, m - k, D, lo + k, n - k) + [RangeRoot(h, D, lo, k)]
  }

  function AuditPath(h: HashFn, m: nat, D: seq<bytes>): seq<bytes>
    requires m < |D|
  {
    RangePath(h, m, D, 0, |D|)
  }

  /** SUBPROOF(m, D[lo:lo+n], whole); PROOF(m, D[n]) is SUBPROOF(m, D[n], true). */
  function SubProof(h: HashFn, m: nat, D: seq<bytes>, lo: nat, n: nat, whole: bool): seq<bytes>
    requires 0 < m <= n && lo + n <= |D|
    decreases n
  {
    if m == n then (if whole then [] else [RangeRoot(h, D, lo, n)])
    else
      var k := SplitPoint(n);
      if m <= k then SubProof(h, m, D, lo, k, whole) + [RangeRoot(h, D, lo + k, n - k)]
      else SubProof(h, m - k, D, lo + k, n - k, false) + [RangeRoot(h, D, lo, k)]
  }

  function ConsistencyProof(h: HashFn, m: nat, D: seq<bytes>): seq<bytes>
    requires 0 < m <= |D|
  {
    SubProof(h, m, D, 0, |D|, true)
  }

  /** The root that an audit path of leaf m in a tree of n leaves leads to, if it has the right length. */
  function RootFromPath(h: HashFn, m: nat, n: nat, leaf: bytes, path: seq<bytes>): (r: Option<bytes>)
    requires m < n
    ensures r.Some? ==> r.value == leaf || |r.value| == HASH_SIZE
    decreases n
  {
    if n == 1 then (if path == [] then Some(leaf) else None)
    else if path == [] then None
    else
      var k := SplitPoint(n);
      if m < k then
        match RootFromPath(h, m, k, leaf, Init(path))
        case None => None
        case Some(left) => Some(NodeHash(h, left, Last(path)))
      else
        match RootFromPath(h, m - k, n - k, leaf, Init(path))
        case None => None
        case Some(right) => Some(NodeHash(h, Last(path), right))
  }

  /** The old and the new root that a consistency proof from m to n leaves leads to. */
  datatype Roots = Roots(older: bytes, newer: bytes)

  function RootsFromProof(h: HashFn, m: nat, n: nat, whole: bool, oldRoot: bytes, proof: seq<bytes>)
    : (r: Option<Roots>)
    requires 0 < m <= n
    ensures r.Some? && m < n ==> |r.value.newer| == HASH_SIZE
    decreases n
  {
    if m == n then
      if whole then (if proof == [] then Some(Roots(oldRoot, oldRoot)) else None)
      else if |proof| == 1 then Some(Roots(proof[0], proof[0])) else None
    else if proof == [] then None
    else
      var k := SplitPoint(n);
      if m <= k then
        match RootsFromProof(h, m, k, whole, oldRoot, Init(proof))
        case None => None
        case Some(sub) => Some(Roots(sub.older, NodeHash(h, sub.newer, Last(proof))))
      else
        match RootsFromProof(h, m - k, n - k, false, oldRoot, Init(proof))
        case None => None
        case Some(sub) => Some(Roots(NodeHash(h, Last(proof), sub.older), NodeHash(h, Last(proof), sub.newer)))
  }

  /** Inclusion check against a root, section 2.1.1. */
  predicate Included(h: HashFn, index: nat, size: nat, leaf: bytes, path: seq<bytes>, root: bytes) {
    index < size && RootFromPath(h, index, size, leaf, path) == Some(root)
  }

  /** Consistency check between two roots, section 2.1.2. Every tree extends the empty one. */
  predicate Consistent(h: HashFn, size1: nat, size2: nat, proof: seq<bytes>, root1: bytes, root2: bytes) {
    if size1 > size2 then false
    else if size1 == size2 then proof == [] && root1 == root2
    else if size1 == 0 then proof == []
    else RootsFromProof(h, size1, size2, true, root1, proof) == Some(Roots(root1, root2))
  }

  // ----- the strings that are hashed

  ghost function TreeInputs(h: HashFn, D: seq<bytes>, lo: nat, n: nat): set<bytes>
    requires lo + n <= |D|
    decreases n
  {
    if n == 0 then {[]}
    else if n == 1 then {LeafInput(D[lo])}
    else
      var k := SplitPoint(n);
      TreeInputs(h, D, lo, k) + TreeInputs(h, D, lo + k, n - k)
      + {NodeInput(RangeRoot(h, D, lo, k), RangeRoot(h, D, lo + k, n - k))}
  }

  ghost function PathInputs(h: HashFn, m: nat, n: nat, leaf: bytes, path: seq<bytes>): set<bytes>
    requires m < n
    decreases n
  {
    if n == 1 || path == [] then {}
    else
      var k := SplitPoint(n);
      if m < k then
        PathInputs(h, m, k, leaf, Init(path))
        + match RootFromPath(h, m, k, leaf, Init(path))
          case None => {}
          case Some(left) => {NodeInput(left, Last(path))}
      else
        PathInputs(h, m - k, n - k, leaf, Init(path))
        + match RootFromPath(h, m - k, n - k, leaf, Init(path))
          case None => {}
          case Some(right) => {NodeInput(Last(path), right)}
  }

  ghost function ProofInputs(h: HashFn, m: nat, n: nat, whole: bool, oldRoot: bytes, proof: seq<bytes>): set<bytes>
    requires 0 < m <= n
    decreases n
  {
    if m == n || proof == [] then {}
    else
      var k := SplitPoint(n);
      if m <= k then
        ProofInputs(h, m, k, whole, oldRoot, Init(proof))
        + match RootsFromProof(h, m, k, whole, oldRoot, Init(proof))
          case None => {}
          case Some(sub) => {NodeInput(sub.newer, Last(proof))}
      else
        ProofInputs(h, m - k, n - k, false, oldRoot, Init(proof))
        + match RootsFromProof(h, m - k, n - k, false, oldRoot, Init(proof))
          case None => {}
          case Some(sub) => {NodeInput(Last(proof), sub.older), NodeInput(Last(proof), sub.newer)}
  }

  lemma NodeInputSplit(l: bytes, r: bytes, l': bytes, r': bytes)
    requires NodeInput(l, r) == NodeInput(l', r')
    requires |l| == |l'| || |r| == |r'|
    ensures l == l' && r == r'
  {
    var s, s' := NodeInput(l, r), NodeInput(l', r');
    assert |s| == |s'|;
    assert s[1..1 + |l|] == l && s[1 + |l|..] == r;
    assert s'[1..1 + |l'|] == l' && s'[1 + |l'|..] == r';
  }

  lemma LeafBinds(h: HashFn, inputs: set<bytes>, a: bytes, b: bytes)
    requires InjectiveOn(h, inputs) && LeafInput(a) in inputs && LeafInput(b) in inputs
    requires LeafHash(h, a) == LeafHash(h, b)
    ensures a == b
  {
    NoCollision(h, inputs, LeafInput(a), LeafInput(b));
    assert a == LeafInput(a)[1..] == LeafInput(b)[1..] == b;
  }

  /** Equal node hashes have equal children, as soon as one child has the same length on both sides. */
  lemma NodeBinds(h: HashFn, inputs: set<bytes>, l: bytes, r: bytes, l': bytes, r': bytes)
    requires InjectiveOn(h, inputs) && NodeInput(l, r) in inputs && NodeInput(l', r') in inputs
    requires NodeHash(h, l, r) == NodeHash(h, l', r')
    requires |l| == |l'| || |r| == |r'|
    ensures l == l' && r == r'
  {
    NoCollision(h, inputs, NodeInput(l, r), NodeInput(l', r'));
    NodeInputSplit(l, r, l', r');
  }

  // ----- one level of a tree, a path and a proof

  lemma TreeLeaf(h: HashFn, D: seq<bytes>, lo: nat)
    requires lo < |D|
    ensures RangeRoot(h, D, lo, 1) == LeafHash(h, D[lo]) && LeafInput(D[lo]) in TreeInputs(h, D, lo, 1)
  {
  }

  lemma TreeStep(h: HashFn, D: seq<bytes>, lo: nat, n: nat)
    requires lo + n <= |D| && n > 1
    ensures var k := SplitPoint(n);
            var l, r := RangeRoot(h, D, lo, k), RangeRoot(h, D, lo + k, n - k);
            && RangeRoot(h, D, lo, n) == NodeHash(h, l, r)
            && NodeInput(l, r) in TreeInputs(h, D, lo, n)
            && TreeInputs(h, D, lo, k) <= TreeInputs(h, D, lo, n)
            && TreeInputs(h, D, lo + k, n - k) <= TreeInputs(h, D, lo, n)
  {
    hide SplitPoint, NodeHash, LeafHash, LeafInput, NodeInput;
  }

  lemma PathStep(h: HashFn, m: nat, n: nat, leaf: bytes, path: seq<bytes>)
    requires 1 < n && m < n && RootFromPath(h, m, n, leaf, path).Some?
    ensures path != []
    ensures var k, last, init := SplitPoint(n), Last(path), Init(path);
            var root, inputs := RootFromPath(h, m, n, leaf, path), PathInputs(h, m, n, leaf, path);
            && path == init + [last]
            && if m < k then
                 var sub := RootFromPath(h, m, k, leaf, init);
                 && sub.Some?
                 && root == Some(NodeHash(h, sub.value, last))
                 && NodeInput(sub.value, last) in inputs
                 && PathInputs(h, m, k, leaf, init) <= inputs
               else
                 var sub := RootFromPath(h, m - k, n - k, leaf, init);
                 && sub.Some?
                 && root == Some(NodeHash(h, last, sub.value))
                 && NodeInput(last, sub.value) in inputs
                 && PathInputs(h, m - k, n - k, leaf, init) <= inputs
  {
    hide SplitPoint, NodeHash, NodeInput;
  }

  lemma PathSnoc(h: HashFn, m: nat, n: nat, leaf: bytes, init: seq<bytes>, last: bytes)
    requires m < n && n > 1
    ensures var k := SplitPoint(n);
            if m < k then
              RootFromPath(h, m, k, leaf, init).Some? ==>
                RootFromPath(h, m, n, leaf, init + [last]) == Some(NodeHash(h, RootFromPath(h, m, k, leaf, init).value, last))
            else
              RootFromPath(h, m - k, n - k, leaf, init).Some? ==>
                RootFromPath(h, m, n, leaf, init + [last]) == Some(NodeHash(h, last, RootFromPath(h, m - k, n - k, leaf, init).value))
  {
    hide SplitPoint, NodeHash;
    InitLast(init, last);
  }

  lemma PathEnd(h: HashFn, leaf: bytes, path: seq<bytes>)
    ensures RootFromPath(h, 0, 1, leaf, path) == if path == [] then Some(leaf) else None
  {
  }

  lemma RangePathStep(h: HashFn, m: nat, D: seq<bytes>, lo: nat, n: nat)
    requires m < n && lo + n <= |D|
    ensures n == 1 ==> RangePath(h, m, D, lo, n) == []
    ensures n > 1 ==>
              var k := SplitPoint(n);
              RangePath(h, m, D, lo, n) ==
              if m < k then RangePath(h, m, D, lo, k) + [RangeRoot(h, D, lo + k, n - k)]
              else RangePath(h, m - k, D, lo + k, n - k) + [RangeRoot(h, D, lo, k)]
  {
    hide SplitPoint, RangeRoot;
  }

  lemma SubProofStep(h: HashFn, m: nat, D: seq<bytes>, lo: nat, n: nat, whole: bool)
    requires 0 < m < n && lo + n <= |D|
    ensures var k := SplitPoint(n);
            SubProof(h, m, D, lo, n, whole) ==
            if m <= k then SubProof(h, m, D, lo, k, whole) + [RangeRoot(h, D, lo + k, n - k)]
            else SubProof(h, m - k, D, lo + k, n - k, false) + [RangeRoot(h, D, lo, k)]
  {
    hide SplitPoint, RangeRoot;
  }

  lemma SubProofEnd(h: HashFn, m: nat, D: seq<bytes>, lo: nat, whole: bool, oldRoot: bytes)
    requires 0 < m && lo + m <= |D|
    requires whole ==> oldRoot == RangeRoot(h, D, lo, m)
    ensures RootsFromProof(h, m, m, whole, oldRoot, SubProof(h, m, D, lo, m, whole))
         == Some(Roots(RangeRoot(h, D, lo, m), RangeRoot(h, D, lo, m)))
  {
    hide RangeRoot;
  }

  lemma RootsSnocLeft(h: HashFn, m: nat, n: nat, whole: bool, oldRoot: bytes, init: seq<bytes>, last: bytes)
    requires 0 < m < n && m <= SplitPoint(n) && RootsFromProof(h, m, SplitPoint(n), whole, oldRoot, init).Some?
    ensures var sub := RootsFromProof(h, m, SplitPoint(n), whole, oldRoot, init).value;
            RootsFromProof(h, m, n, whole, oldRoot, init + [last]) == Some(Roots(sub.older, NodeHash(h, sub.newer, last)))
  {
    hide SplitPoint, NodeHash;
    InitLast(init, last);
  }

  lemma RootsSnocRight(h: HashFn, m: nat, n: nat, whole: bool, oldRoot: bytes, init: seq<bytes>, last: bytes)
    requires 0 < m < n && m > SplitPoint(n)
    requires RootsFromProof(h, m - SplitPoint(n), n - SplitPoint(n), false, oldRoot, init).Some?
    ensures var sub := RootsFromProof(h, m - SplitPoint(n), n - SplitPoint(n), false, oldRoot, init).value;
            RootsFromProof(h, m, n, whole, oldRoot, init + [last])
            == Some(Roots(NodeHash(h, last, sub.older), NodeHash(h, last, sub.newer)))
  {
    hide SplitPoint, NodeHash;
    InitLast(init, last);
  }

  lemma ProofStep(h: HashFn, m: nat, n: nat, whole: bool, oldRoot: bytes, proof: seq<bytes>)
    requires 0 < m < n && RootsFromProof(h, m, n, whole, oldRoot, proof).Some?
    ensures proof != []
    ensures var k, last, init := SplitPoint(n), Last(proof), Init(proof);
            var roots, inputs := RootsFromProof(h, m, n, whole, oldRoot, proof), ProofInputs(h, m, n, whole, oldRoot, proof);
            if m <= k then
              var sub := RootsFromProof(h, m, k, whole, oldRoot, init);
              && sub.Some?
              && roots == Some(Roots(sub.value.older, NodeHash(h, sub.value.newer, last)))
              && NodeInput(sub.value.newer, last) in inputs
              && ProofInputs(h, m, k, whole, oldRoot, init) <= inputs
            else
              var sub := RootsFromProof(h, m - k, n - k, false, oldRoot, init);
              && sub.Some?
              && roots == Some(Roots(NodeHash(h, last, sub.value.older), NodeHash(h, last, sub.value.newer)))
              && NodeInput(last, sub.value.older) in inputs && NodeInput(last, sub.value.newer) in inputs
              && ProofInputs(h, m - k, n - k, false, oldRoot, init) <= inputs
  {
    hide SplitPoint, NodeHash, NodeInput;
  }

  lemma ProofEnd(h: HashFn, m: nat, whole: bool, oldRoot: bytes, proof: seq<bytes>)
    requires 0 < m && RootsFromProof(h, m, m, whole, oldRoot, proof).Some?
    ensures var roots := RootsFromProof(h, m, m, whole, oldRoot, proof).value; roots.older == roots.newer
  {
  }

  // ----- a root depends on its leaves only, and commits to them

  lemma {:induction false} RangeRootFrame(h: HashFn, A: seq<bytes>, B: seq<bytes>, lo: nat, n: nat)
    requires lo + n <= |A| && lo + n <= |B|
    requires forall i :: lo <= i < lo + n ==> A[i] == B[i]
    ensures RangeRoot(h, A, lo, n) == RangeRoot(h, B, lo, n)
    decreases n
  {
    hide SplitPoint, LeafHash, NodeHash;
    if n > 1 {
      var k := SplitPoint(n);
      RangeRootFrame(h, A, B, lo, k);
      RangeRootFrame(h, A, B, lo + k, n - k);
    }
  }

  lemma {:induction false} RangeRootCommits(h: HashFn, A: seq<bytes>, B: seq<bytes>, lo: nat, n: nat, inputs: set<bytes>)
    requires lo + n <= |A| && lo + n <= |B|
    requires RangeRoot(h, A, lo, n) == RangeRoot(h, B, lo, n)
    requires InjectiveOn(h, inputs) && TreeInputs(h, A, lo, n) <= inputs && TreeInputs(h, B, lo, n) <= inputs
    ensures forall i :: lo <= i < lo + n ==> A[i] == B[i]
    decreases n
  {
    hide *;
    if n == 1 {
      TreeLeaf(h, A, lo);
      TreeLeaf(h, B, lo);
      LeafBinds(h, inputs, A[lo], B[lo]);
    } else if n > 1 {
      var k := SplitPoint(n);
      TreeStep(h, A, lo, n);
      TreeStep(h, B, lo, n);
      NodeBinds(h, inputs, RangeRoot(h, A, lo, k), RangeRoot(h, A, lo + k, n - k),
                RangeRoot(h, B, lo, k), RangeRoot(h, B, lo + k, n - k));
      RangeRootCommits(h, A, B, lo, k, inputs);
      RangeRootCommits(h, A, B, lo + k, n - k, inputs);
    }
  }

  /** D[lo:lo+n]. */
  ghost function Slice(D: seq<bytes>, lo: nat, n: nat): (s: seq<bytes>)
    requires lo + n <= |D|
    ensures |s| == n
  {
    D[lo..lo + n]
  }

  lemma SliceSplit(D: seq<bytes>, lo: nat, n: nat, k: nat)
    requires k <= n && lo + n <= |D|
    ensures Slice(D, lo, n)[..k] == Slice(D, lo, k) && Slice(D, lo, n)[k..] == Slice(D, lo + k, n - k)
    ensures Slice(D, lo, n) == Slice(D, lo, k) + Slice(D, lo + k, n - k)
  {
  }

  lemma SliceOne(D: seq<bytes>, lo: nat)
    requires lo < |D|
    ensures Slice(D, lo, 1) == [D[lo]]
  {
  }

  lemma SliceAll(D: seq<bytes>)
    ensures Slice(D, 0, |D|) == D
  {
  }

  lemma {:induction false} RangeRootShift(h: HashFn, A: seq<bytes>, lo: nat, B: seq<bytes>, lo': nat, n: nat)
    requires lo + n <= |A| && lo' + n <= |B|
    requires Slice(A, lo, n) == Slice(B, lo', n)
    ensures RangeRoot(h, A, lo, n) == RangeRoot(h, B, lo', n)
    decreases n
  {
    hide *;
    if n == 0 {
      TreeEmpty(h, A, lo);
      TreeEmpty(h, B, lo');
    } else if n == 1 {
      TreeLeaf(h, A, lo);
      TreeLeaf(h, B, lo');
      assert Slice(A, lo, 1) == [A[lo]] && Slice(B, lo', 1) == [B[lo']] by { SliceOne(A, lo); SliceOne(B, lo'); }
    } else {
      var k := SplitPoint(n);
      TreeStep(h, A, lo, n);
      TreeStep(h, B, lo', n);
      SliceSplit(A, lo, n, k);
      SliceSplit(B, lo', n, k);
      RangeRootShift(h, A, lo, B, lo', k);
      RangeRootShift(h, A, lo + k, B, lo' + k, n - k);
    }
  }

  lemma TreeEmpty(h: HashFn, D: seq<bytes>, lo: nat)
    requires lo <= |D|
    ensures RangeRoot(h, D, lo, 0) == h([]) && [] in TreeInputs(h, D, lo, 0)
  {
  }

  /**
   The tree hash as section 2.1 of RFC 6962 defines it, on the hash function itself: nothing for
   the empty list, a zero byte before a leaf, a one byte before the hashes of the two halves, of
   which the left one is the largest power of two below the size.
   */
  lemma RootIsTreeHash(h: HashFn, D: seq<bytes>, k: nat)
    ensures |Root(h, D)| == 32
    ensures |D| == 0 ==> Root(h, D) == h([])
    ensures |D| == 1 ==> Root(h, D) == h([0] + D[0])
    ensures IsPow2(k) && k < |D| <= 2 * k ==> Root(h, D) == h([1] + Root(h, D[..k]) + Root(h, D[k..]))
  {
    hide RangeRoot, TreeInputs, SplitPoint, IsPow2;
    var n := |D|;
    if n == 0 {
      TreeEmpty(h, D, 0);
    } else if n == 1 {
      TreeLeaf(h, D, 0);
    } else if IsPow2(k) && k < n <= 2 * k {
      SplitPointUnique(n, k);
      TreeStep(h, D, 0, n);
      SliceAll(D[..k]);
      SliceAll(D[k..]);
      RangeRootShift(h, D, 0, D[..k], 0, k);
      RangeRootShift(h, D, k, D[k..], 0, n - k);
    }
  }

  /** Leaves and inner nodes are told apart before they are hashed, and neither is empty. */
  lemma LeafIsNoNode(data: bytes, left: bytes, right: bytes)
    ensures LeafInput(data) != NodeInput(left, right)
    ensures LeafInput(data) != [] && NodeInput(left, right) != []
  {
    assert LeafInput(data)[0] != NodeInput(left, right)[0];
  }

  /** Whatever the two sizes: equal roots have trees of one shape, with equal leaves. */
  lemma {:induction false} RangesCommit(h: HashFn, A: seq<bytes>, lo: nat, n: nat, B: seq<bytes>, lo': nat, n': nat, inputs: set<bytes>)
    requires lo + n <= |A| && lo' + n' <= |B|
    requires RangeRoot(h, A, lo, n) == RangeRoot(h, B, lo', n')
    requires InjectiveOn(h, inputs) && TreeInputs(h, A, lo, n) <= inputs && TreeInputs(h, B, lo', n') <= inputs
    ensures n == n' && Slice(A, lo, n) == Slice(B, lo', n')
    decreases n
  {
    hide *;
    var x := TreeTop(h, A, lo, n);
    var y := TreeTop(h, B, lo', n');
    NoCollision(h, inputs, x, y);
    SameShape(h, A, lo, n, B, lo', n');
    if n == 1 {
      TreeLeaf(h, A, lo);
      TreeLeaf(h, B, lo');
      LeafBinds(h, inputs, A[lo], B[lo']);
      SliceOne(A, lo);
      SliceOne(B, lo');
    } else if n > 1 {
      var k, k' := SplitPoint(n), SplitPoint(n');
      TreeStep(h, A, lo, n);
      TreeStep(h, B, lo', n');
      NodeBinds(h, inputs, RangeRoot(h, A, lo, k), RangeRoot(h, A, lo + k, n - k),
                RangeRoot(h, B, lo', k'), RangeRoot(h, B, lo' + k', n' - k'));
      RangesCommit(h, A, lo, k, B, lo', k', inputs);
      RangesCommit(h, A, lo + k, n - k, B, lo' + k', n' - k', inputs);
      SliceSplit(A, lo, n, k);
      SliceSplit(B, lo', n', k');
    }
  }

  /** The string that is hashed last for a root. */
  ghost function TopInput(h: HashFn, D: seq<bytes>, lo: nat, n: nat): bytes
    requires lo + n <= |D|
  {
    if n == 0 then []
    else if n == 1 then LeafInput(D[lo])
    else NodeInput(RangeRoot(h, D, lo, SplitPoint(n)), RangeRoot(h, D, lo + SplitPoint(n), n - SplitPoint(n)))
  }

  lemma TreeTop(h: HashFn, D: seq<bytes>, lo: nat, n: nat) returns (x: bytes)
    requires lo + n <= |D|
    ensures x == TopInput(h, D, lo, n) && x in TreeInputs(h, D, lo, n) && RangeRoot(h, D, lo, n) == h(x)
  {
    hide SplitPoint, LeafInput, NodeInput;
    x := TopInput(h, D, lo, n);
  }

  lemma SameShape(h: HashFn, A: seq<bytes>, lo: nat, n: nat, B: seq<bytes>, lo': nat, n': nat)
    requires lo + n <= |A| && lo' + n' <= |B| && TopInput(h, A, lo, n) == TopInput(h, B, lo', n')
    ensures (n == 0 <==> n' == 0) && (n == 1 <==> n' == 1)
  {
    hide RangeRoot, SplitPoint;
    assert n > 0 ==> TopInput(h, A, lo, n)[0] == if n == 1 then 0 else 1;
    assert n' > 0 ==> TopInput(h, B, lo', n')[0] == if n' == 1 then 0 else 1;
  }

  /** A root commits to the whole log, also to its size. */
  lemma RootCommits(h: HashFn, A: seq<bytes>, B: seq<bytes>)
    requires InjectiveOn(h, TreeInputs(h, A, 0, |A|) + TreeInputs(h, B, 0, |B|))
    ensures Root(h, A) == Root(h, B) <==> A == B
  {
    hide RangeRoot, TreeInputs, InjectiveOn;
    if Root(h, A) == Root(h, B) {
      RangesCommit(h, A, 0, |A|, B, 0, |B|, TreeInputs(h, A, 0, |A|) + TreeInputs(h, B, 0, |B|));
      SliceAll(A);
      SliceAll(B);
    }
  }

  // ----- inclusion

  lemma {:induction false} RangePathComplete(h: HashFn, m: nat, D: seq<bytes>, lo: nat, n: nat)
    requires m < n && lo + n <= |D|
    ensures RootFromPath(h, m, n, LeafHash(h, D[lo + m]), RangePath(h, m, D, lo, n)) == Some(RangeRoot(h, D, lo, n))
    decreases n
  {
    hide *;
    var leaf := LeafHash(h, D[lo + m]);
    RangePathStep(h, m, D, lo, n);
    if n == 1 {
      PathEnd(h, leaf, RangePath(h, m, D, lo, n));
      TreeLeaf(h, D, lo);
    } else {
      var k := SplitPoint(n);
      TreeStep(h, D, lo, n);
      if m < k {
        RangePathComplete(h, m, D, lo, k);
        PathSnoc(h, m, n, leaf, RangePath(h, m, D, lo, k), RangeRoot(h, D, lo + k, n - k));
      } else {
        RangePathComplete(h, m - k, D, lo + k, n - k);
        PathSnoc(h, m, n, leaf, RangePath(h, m - k, D, lo + k, n - k), RangeRoot(h, D, lo, k));
      }
    }
  }

  /** The audit path of every leaf is accepted. */
  lemma InclusionComplete(h: HashFn, m: nat, D: seq<bytes>)
    requires m < |D|
    ensures Included(h, m, |D|, LeafHash(h, D[m]), AuditPath(h, m, D), Root(h, D))
  {
    hide RootFromPath, RangePath, RangeRoot;
    RangePathComplete(h, m, D, 0, |D|);
  }

  lemma {:induction false} RangePathSound(h: HashFn, m: nat, D: seq<bytes>, lo: nat, n: nat, body: bytes, path: seq<bytes>, inputs: set<bytes>)
    requires m < n && lo + n <= |D|
    requires RootFromPath(h, m, n, LeafHash(h, body), path) == Some(RangeRoot(h, D, lo, n))
    requires InjectiveOn(h, inputs) && LeafInput(body) in inputs
    requires TreeInputs(h, D, lo, n) <= inputs && PathInputs(h, m, n, LeafHash(h, body), path) <= inputs
    ensures body == D[lo + m] && path == RangePath(h, m, D, lo, n)
    decreases n
  {
    hide *;
    var leaf := LeafHash(h, body);
    RangePathStep(h, m, D, lo, n);
    if n == 1 {
      PathEnd(h, leaf, path);
      TreeLeaf(h, D, lo);
      LeafBinds(h, inputs, D[lo], body);
    } else {
      var k := SplitPoint(n);
      var l, r := RangeRoot(h, D, lo, k), RangeRoot(h, D, lo + k, n - k);
      TreeStep(h, D, lo, n);
      PathStep(h, m, n, leaf, path);
      if m < k {
        NodeBinds(h, inputs, RootFromPath(h, m, k, leaf, Init(path)).value, Last(path), l, r);
        RangePathSound(h, m, D, lo, k, body, Init(path), inputs);
      } else {
        NodeBinds(h, inputs, Last(path), RootFromPath(h, m - k, n - k, leaf, Init(path)).value, l, r);
        RangePathSound(h, m - k, D, lo + k, n - k, body, Init(path), inputs);
      }
    }
  }

  /** The strings hashed to build the root of D and to check the path of a body against it. */
  ghost function InclusionInputs(h: HashFn, m: nat, D: seq<bytes>, body: bytes, path: seq<bytes>): set<bytes> {
    TreeInputs(h, D, 0, |D|) + {LeafInput(body)}
    + if m < |D| then PathInputs(h, m, |D|, LeafHash(h, body), path) else {}
  }

  /**
   A path that leads from the hash of a body to the root of a log proves that the body is the
   leaf at that index, and the path is the audit path: there is no second proof.
   */
  lemma InclusionSound(h: HashFn, m: nat, D: seq<bytes>, body: bytes, path: seq<bytes>)
    requires Included(h, m, |D|, LeafHash(h, body), path, Root(h, D))
    requires InjectiveOn(h, InclusionInputs(h, m, D, body, path))
    ensures m < |D| && body == D[m]
    ensures path == AuditPath(h, m, D)
  {
    hide RootFromPath, RangePath, RangeRoot, TreeInputs, PathInputs, InjectiveOn, LeafHash, LeafInput;
    RangePathSound(h, m, D, 0, |D|, body, path, InclusionInputs(h, m, D, body, path));
  }

  // ----- consistency

  lemma {:induction false} SubProofComplete(h: HashFn, m: nat, D: seq<bytes>, lo: nat, n: nat, whole: bool, oldRoot: bytes)
    requires 0 < m <= n && lo + n <= |D|
    requires whole ==> oldRoot == RangeRoot(h, D, lo, m)
    ensures RootsFromProof(h, m, n, whole, oldRoot, SubProof(h, m, D, lo, n, whole))
         == Some(Roots(RangeRoot(h, D, lo, m), RangeRoot(h, D, lo, n)))
    decreases n
  {
    hide *;
    if m == n {
      SubProofEnd(h, m, D, lo, whole, oldRoot);
    } else {
      var k := SplitPoint(n);
      TreeStep(h, D, lo, n);
      SubProofStep(h, m, D, lo, n, whole);
      if m <= k {
        SubProofComplete(h, m, D, lo, k, whole, oldRoot);
        RootsSnocLeft(h, m, n, whole, oldRoot, SubProof(h, m, D, lo, k, whole), RangeRoot(h, D, lo + k, n - k));
      } else {
        SubProofComplete(h, m - k, D, lo + k, n - k, false, oldRoot);
        RootsSnocRight(h, m, n, whole, oldRoot, SubProof(h, m - k, D, lo + k, n - k, false), RangeRoot(h, D, lo, k));
        SplitPointUnique(m, k);
        TreeStep(h, D, lo, m);
      }
    }
  }

  /** The proof of section 2.1.2 between two versions of one log is accepted. */
  lemma ConsistencyComplete(h: HashFn, m: nat, D: seq<bytes>)
    requires 0 < m <= |D|
    ensures Consistent(h, m, |D|, ConsistencyProof(h, m, D), Root(h, D[..m]), Root(h, D))
  {
    hide RangeRoot;
    RangeRootFrame(h, D[..m], D, 0, m);
    SubProofComplete(h, m, D, 0, |D|, true, Root(h, D[..m]));
  }

  lemma {:induction false} SubProofSound(h: HashFn, A: seq<bytes>, B: seq<bytes>, lo: nat, m: nat, n: nat,
                                         whole: bool, oldRoot: bytes, proof: seq<bytes>, inputs: set<bytes>)
    requires 0 < m <= n && lo + m <= |A| && lo + n <= |B|
    requires RootsFromProof(h, m, n, whole, oldRoot, proof) == Some(Roots(RangeRoot(h, A, lo, m), RangeRoot(h, B, lo, n)))
    requires InjectiveOn(h, inputs) && ProofInputs(h, m, n, whole, oldRoot, proof) <= inputs
    requires TreeInputs(h, A, lo, m) <= inputs && TreeInputs(h, B, lo, n) <= inputs
    ensures forall i :: lo <= i < lo + m ==> A[i] == B[i]
    decreases n
  {
    hide *;
    if m == n {
      ProofEnd(h, m, whole, oldRoot, proof);
      RangeRootCommits(h, A, B, lo, m, inputs);
    } else {
      var k := SplitPoint(n);
      var l, r := RangeRoot(h, B, lo, k), RangeRoot(h, B, lo + k, n - k);
      ProofStep(h, m, n, whole, oldRoot, proof);
      TreeStep(h, B, lo, n);
      var last, init := Last(proof), Init(proof);
      if m <= k {
        var sub := RootsFromProof(h, m, k, whole, oldRoot, init).value;
        if m == k {
          ProofEnd(h, m, whole, oldRoot, init);
        }
        // A proof entry of another length than a hash is not mistaken for a node.
        assert |sub.newer| == HASH_SIZE;
        NodeBinds(h, inputs, sub.newer, last, l, r);
        SubProofSound(h, A, B, lo, m, k, whole, oldRoot, init, inputs);
      } else {
        SplitPointUnique(m, k);
        TreeStep(h, A, lo, m);
        var l', r' := RangeRoot(h, A, lo, k), RangeRoot(h, A, lo + k, m - k);
        var sub := RootsFromProof(h, m - k, n - k, false, oldRoot, init).value;
        NodeBinds(h, inputs, last, sub.newer, l, r);
        NodeBinds(h, inputs, last, sub.older, l', r');
        RangeRootCommits(h, A, B, lo, k, inputs);
        SubProofSound(h, A, B, lo + k, m - k, n - k, false, oldRoot, init, inputs);
      }
    }
  }

  /** The strings hashed to build the two roots and to check a proof between them. */
  ghost function ConsistencyInputs(h: HashFn, older: seq<bytes>, newer: seq<bytes>, proof: seq<bytes>): set<bytes> {
    TreeInputs(h, older, 0, |older|) + TreeInputs(h, newer, 0, |newer|)
    + if 0 < |older| <= |newer| then ProofInputs(h, |older|, |newer|, true, Root(h, older), proof) else {}
  }

  /** An accepted consistency proof proves that the older log is a prefix of the newer one. */
  lemma ConsistencySound(h: HashFn, older: seq<bytes>, newer: seq<bytes>, proof: seq<bytes>)
    requires Consistent(h, |older|, |newer|, proof, Root(h, older), Root(h, newer))
    requires InjectiveOn(h, ConsistencyInputs(h, older, newer, proof))
    ensures older <= newer
  {
    hide RangeRoot, TreeInputs, ProofInputs, RootsFromProof, InjectiveOn;
    var inputs := ConsistencyInputs(h, older, newer, proof);
    if |older| == |newer| {
      RangeRootCommits(h, older, newer, 0, |older|, inputs);
    } else if |older| > 0 {
      SubProofSound(h, older, newer, 0, |older|, |newer|, true, Root(h, older), proof, inputs);
    }
  }
}
