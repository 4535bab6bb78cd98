/**
 The proof checks as a verifier runs them: one pass over the proof, from the leaf upwards,
 steered by the bits of the leaf index and of the tree size (sections 2.1.3.2 and 2.1.4.2
 of RFC 9162). They are proved to decide exactly what the recursive definitions decide.
 */
module ProofWalk {
  import opened Bytes
  import opened Hashing
  import opened Merkle

  function OddPart(x: nat): (r: nat)
    requires x > 0
    ensures 0 < r <= x && r % 2 == 1
  {
    if x % 2 == 1 then x else OddPart(x / 2)
  }

  /** Both numbers, shifted right while the first one is odd. */
  function StripOnes(fn: nat, sn: nat): (nat, nat) {
    if fn % 2 == 1 then StripOnes(fn / 2, sn / 2) else (fn, sn)
  }

  /** The path has an entry left: it is the left sibling exactly when this holds. */
  predicate FromLeft(fn: nat, sn: nat) { fn % 2 == 1 || fn == sn }

  /** One level up, skipping the levels at which the right-most node has no sibling. */
  function Up(fn: nat, sn: nat): (nat, nat)
    requires sn > 0
  {
    if fn % 2 == 0 && fn == sn then (OddPart(fn) / 2, OddPart(sn) / 2) else (fn / 2, sn / 2)
  }

  function Walk(h: HashFn, fn: nat, sn: nat, r: bytes, path: seq<bytes>): Option<bytes>
    decreases |path|
  {
    if path == [] then (if sn == 0 then Some(r) else None)
    else if sn == 0 then None
    else
      var (fn', sn') := Up(fn, sn);
      var r' := if FromLeft(fn, sn) then NodeHash(h, path[0], r) else NodeHash(h, r, path[0]);
      Walk(h, fn', sn', r', path[1..])
  }

  function WalkBoth(h: HashFn, fn: nat, sn: nat, r: Roots, path: seq<bytes>): Option<Roots>
    decreases |path|
  {
    if path == [] then (if sn == 0 then Some(r) else None)
    else if sn == 0 then None
    else
      var (fn', sn') := Up(fn, sn);
      var r' := if FromLeft(fn, sn) then Roots(NodeHash(h, path[0], r.older), NodeHash(h, path[0], r.newer))
                else Roots(r.older, NodeHash(h, r.newer, path[0]));
      WalkBoth(h, fn', sn', r', path[1..])
  }

  /** The walk of a consistency proof whose first entry is the subtree that both trees share. */
  function WalkProof(h: HashFn, m: nat, n: nat, entries: seq<bytes>): Option<Roots>
    requires 0 < m <= n
  {
    if entries == [] then None
    else
      var (fn, sn) := StripOnes(m - 1, n - 1);
      WalkBoth(h, fn, sn, Roots(entries[0], entries[0]), entries[1..])
  }

  // ----- climbing inside the left and the right half of a tree

  function OnLeft(h: HashFn, r: Option<bytes>, last: bytes): Option<bytes> {
    match r case None => None case Some(x) => Some(NodeHash(h, x, last))
  }

  function OnRight(h: HashFn, r: Option<bytes>, last: bytes): Option<bytes> {
    match r case None => None case Some(x) => Some(NodeHash(h, last, x))
  }

  function BothOnLeft(h: HashFn, r: Option<Roots>, last: bytes): Option<Roots> {
    match r case None => None case Some(x) => Some(Roots(x.older, NodeHash(h, x.newer, last)))
  }

  function BothOnRight(h: HashFn, r: Option<Roots>, last: bytes): Option<Roots> {
    match r case None => None case Some(x) => Some(Roots(NodeHash(h, last, x.older), NodeHash(h, last, x.newer)))
  }

  lemma {:induction false} OddPartShift(x: nat, p: nat) returns (p': nat)
    requires IsPow2(p) && 0 < x < p
    ensures IsPow2(p') && 1 < p' && OddPart(x) < p' && OddPart(x + p) == OddPart(x) + p'
    decreases x
  {
    if x % 2 == 1 {
      p' := p;
    } else {
      p' := OddPartShift(x / 2, p / 2);
      assert (x + p) / 2 == x / 2 + p / 2;
    }
  }

  lemma {:induction false} OddPartPow2(p: nat)
    requires IsPow2(p)
    ensures OddPart(p) == 1
  {
    if p > 1 {
      OddPartPow2(p / 2);
    }
  }

  /** A climb in the right half of a tree is the climb in that half, one subtree to the left of it. */
  lemma UpRight(fn: nat, sn: nat, p: nat) returns (p': nat)
    requires IsPow2(p) && fn <= sn < p && 0 < sn
    ensures var (f, s) := Up(fn, sn); IsPow2(p') && f <= s < p' && Up(fn + p, sn + p) == (f + p', s + p')
    ensures FromLeft(fn, sn) == FromLeft(fn + p, sn + p)
  {
    if fn % 2 == 0 && fn == sn {
      var q := OddPartShift(fn, p);
      p' := q / 2;
    } else {
      p' := p / 2;
    }
  }

  lemma UpLeft(fn: nat, sn: nat, p: nat)
    requires IsPow2(p) && 1 < p && fn < p <= sn < 2 * p
    ensures IsPow2(p / 2) && fn / 2 < p / 2 <= sn / 2 < 2 * (p / 2)
    ensures Up(fn, p - 1) == (fn / 2, p / 2 - 1) && Up(fn, sn) == (fn / 2, sn / 2)
    ensures FromLeft(fn, p - 1) == FromLeft(fn, sn)
  {
  }

  /** At the top of the right half, one entry is left: the root of the left half. */
  lemma UpTop(p: nat)
    requires IsPow2(p)
    ensures Up(p, p) == (0, 0) && FromLeft(p, p)
  {
    OddPartPow2(p);
  }

  lemma SnocTail(path: seq<bytes>, last: bytes)
    requires path != []
    ensures (path + [last])[0] == path[0] && (path + [last])[1..] == path[1..] + [last]
  {
  }

  lemma WalkStep(h: HashFn, fn: nat, sn: nat, r: bytes, path: seq<bytes>)
    requires path != [] && sn > 0
    ensures Walk(h, fn, sn, r, path)
         == Walk(h, Up(fn, sn).0, Up(fn, sn).1,
                 if FromLeft(fn, sn) then NodeHash(h, path[0], r) else NodeHash(h, r, path[0]), path[1..])
  {
    hide NodeHash, Up;
  }

  lemma WalkEnd(h: HashFn, fn: nat, sn: nat, r: bytes, path: seq<bytes>)
    requires path == [] || sn == 0
    ensures Walk(h, fn, sn, r, path) == if path == [] && sn == 0 then Some(r) else None
  {
  }

  lemma {:induction false} WalkRight(h: HashFn, fn: nat, sn: nat, p: nat, r: bytes, path: seq<bytes>, last: bytes)
    requires IsPow2(p) && fn <= sn < p
    ensures Walk(h, fn + p, sn + p, r, path + [last]) == OnRight(h, Walk(h, fn, sn, r, path), last)
    decreases |path|
  {
    hide Walk, Up, NodeHash, IsPow2, FromLeft;
    WalkStep(h, fn + p, sn + p, r, path + [last]);
    if sn == 0 {
      UpTop(p);
      WalkEnd(h, fn, sn, r, path);
      WalkEnd(h, 0, 0, NodeHash(h, (path + [last])[0], r), (path + [last])[1..]);
    } else {
      var p' := UpRight(fn, sn, p);
      if path == [] {
        WalkEnd(h, fn, sn, r, path);
        var (f, s) := Up(fn, sn);
        assert (path + [last])[1..] == [];
        WalkEnd(h, f + p', s + p', if FromLeft(fn, sn) then NodeHash(h, last, r) else NodeHash(h, r, last), []);
      } else {
        SnocTail(path, last);
        WalkStep(h, fn, sn, r, path);
        var (f, s) := Up(fn, sn);
        WalkRight(h, f, s, p', if FromLeft(fn, sn) then NodeHash(h, path[0], r) else NodeHash(h, r, path[0]), path[1..], last);
      }
    }
  }

  lemma {:induction false} WalkLeft(h: HashFn, fn: nat, sn: nat, p: nat, r: bytes, path: seq<bytes>, last: bytes)
    requires IsPow2(p) && fn < p <= sn < 2 * p
    ensures Walk(h, fn, sn, r, path + [last]) == OnLeft(h, Walk(h, fn, p - 1, r, path), last)
    decreases |path|
  {
    hide Walk, Up, NodeHash, IsPow2, FromLeft;
    WalkStep(h, fn, sn, r, path + [last]);
    if p == 1 {
      UpBottom();
      WalkEnd(h, fn, 0, r, path);
      WalkEnd(h, 0, 0, NodeHash(h, r, (path + [last])[0]), (path + [last])[1..]);
    } else {
      UpLeft(fn, sn, p);
      if path == [] {
        WalkEnd(h, fn, p - 1, r, path);
        assert (path + [last])[1..] == [];
        WalkEnd(h, fn / 2, sn / 2, if FromLeft(fn, sn) then NodeHash(h, last, r) else NodeHash(h, r, last), []);
      } else {
        SnocTail(path, last);
        WalkStep(h, fn, p - 1, r, path);
        WalkLeft(h, fn / 2, sn / 2, p / 2, if FromLeft(fn, sn) then NodeHash(h, path[0], r) else NodeHash(h, r, path[0]), path[1..], last);
      }
    }
  }

  lemma UpBottom()
    ensures Up(0, 1) == (0, 0) && !FromLeft(0, 1)
  {
  }

  lemma RootFromPathStep(h: HashFn, m: nat, n: nat, leaf: bytes, path: seq<bytes>)
    requires m < n && 1 < n
    ensures path == [] ==> RootFromPath(h, m, n, leaf, path) == None
    ensures path != [] ==>
              var k := SplitPoint(n);
              RootFromPath(h, m, n, leaf, path) ==
              if m < k then OnLeft(h, RootFromPath(h, m, k, leaf, Init(path)), Last(path))
              else OnRight(h, RootFromPath(h, m - k, n - k, leaf, Init(path)), Last(path))
  {
    hide SplitPoint, NodeHash;
  }

  /** The climb from the leaf computes what the recursion from the root defines. */
  lemma {:induction false} WalkIsRootFromPath(h: HashFn, m: nat, n: nat, leaf: bytes, path: seq<bytes>)
    requires m < n
    ensures Walk(h, m, n - 1, leaf, path) == RootFromPath(h, m, n, leaf, path)
    decreases n
  {
    hide *;
    if n == 1 {
      WalkEnd(h, 0, 0, leaf, path);
      PathEnd(h, leaf, path);
    } else {
      var k := SplitPoint(n);
      RootFromPathStep(h, m, n, leaf, path);
      if path == [] {
        WalkEnd(h, m, n - 1, leaf, path);
      } else {
        InitThenLast(path);
        if m < k {
          WalkLeft(h, m, n - 1, k, leaf, Init(path), Last(path));
          WalkIsRootFromPath(h, m, k, leaf, Init(path));
        } else {
          WalkRight(h, m - k, n - 1 - k, k, leaf, Init(path), Last(path));
          WalkIsRootFromPath(h, m - k, n - k, leaf, Init(path));
        }
      }
    }
  }

  // ----- consistency: the same climb with two hashes

  lemma BothStep(h: HashFn, fn: nat, sn: nat, r: Roots, path: seq<bytes>)
    requires path != [] && sn > 0
    ensures WalkBoth(h, fn, sn, r, path) == WalkBoth(h, Up(fn, sn).0, Up(fn, sn).1, Combine(h, fn, sn, r, path[0]), path[1..])
  {
    hide NodeHash, Up;
  }

  lemma BothEnd(h: HashFn, fn: nat, sn: nat, r: Roots, path: seq<bytes>)
    requires path == [] || sn == 0
    ensures WalkBoth(h, fn, sn, r, path) == if path == [] && sn == 0 then Some(r) else None
  {
  }

  function Combine(h: HashFn, fn: nat, sn: nat, r: Roots, entry: bytes): Roots {
    if FromLeft(fn, sn) then Roots(NodeHash(h, entry, r.older), NodeHash(h, entry, r.newer))
    else Roots(r.older, NodeHash(h, r.newer, entry))
  }

  lemma {:induction false} BothRight(h: HashFn, fn: nat, sn: nat, p: nat, r: Roots, path: seq<bytes>, last: bytes)
    requires IsPow2(p) && fn <= sn < p
    ensures WalkBoth(h, fn + p, sn + p, r, path + [last]) == BothOnRight(h, WalkBoth(h, fn, sn, r, path), last)
    decreases |path|
  {
    hide WalkBoth, Up, NodeHash, IsPow2, FromLeft;
    BothStep(h, fn + p, sn + p, r, path + [last]);
    if sn == 0 {
      UpTop(p);
      BothEnd(h, fn, sn, r, path);
      BothEnd(h, 0, 0, Combine(h, p, p, r, (path + [last])[0]), (path + [last])[1..]);
    } else {
      var p' := UpRight(fn, sn, p);
      var (f, s) := Up(fn, sn);
      if path == [] {
        BothEnd(h, fn, sn, r, path);
        assert (path + [last])[1..] == [];
        BothEnd(h, f + p', s + p', Combine(h, fn + p, sn + p, r, last), []);
      } else {
        SnocTail(path, last);
        BothStep(h, fn, sn, r, path);
        BothRight(h, f, s, p', Combine(h, fn, sn, r, path[0]), path[1..], last);
      }
    }
  }

  lemma {:induction false} BothLeft(h: HashFn, fn: nat, sn: nat, p: nat, r: Roots, path: seq<bytes>, last: bytes)
    requires IsPow2(p) && fn < p <= sn < 2 * p
    ensures WalkBoth(h, fn, sn, r, path + [last]) == BothOnLeft(h, WalkBoth(h, fn, p - 1, r, path), last)
    decreases |path|
  {
    hide WalkBoth, Up, NodeHash, IsPow2, FromLeft;
    BothStep(h, fn, sn, r, path + [last]);
    if p == 1 {
      UpBottom();
      BothEnd(h, fn, 0, r, path);
      BothEnd(h, 0, 0, Combine(h, fn, sn, r, (path + [last])[0]), (path + [last])[1..]);
    } else {
      UpLeft(fn, sn, p);
      if path == [] {
        BothEnd(h, fn, p - 1, r, path);
        assert (path + [last])[1..] == [];
        BothEnd(h, fn / 2, sn / 2, Combine(h, fn, sn, r, last), []);
      } else {
        SnocTail(path, last);
        BothStep(h, fn, p - 1, r, path);
        BothLeft(h, fn / 2, sn / 2, p / 2, Combine(h, fn, sn, r, path[0]), path[1..], last);
      }
    }
  }

  lemma StripStep(fn: nat, sn: nat)
    ensures StripOnes(fn, sn) == if fn % 2 == 1 then StripOnes(fn / 2, sn / 2) else (fn, sn)
  {
  }

  lemma HalveSum(x: nat, p: nat)
    requires IsPow2(p) && p > 1
    ensures IsPow2(p / 2) && p == 2 * (p / 2)
    ensures (x + p) % 2 == x % 2 && (x + p) / 2 == x / 2 + p / 2 && (p - 1) / 2 == p / 2 - 1
  {
  }

  lemma {:induction false} StripLeft(fn: nat, sn: nat, p: nat) returns (p': nat)
    requires IsPow2(p) && fn < p <= sn < 2 * p
    ensures var (f, s) := StripOnes(fn, sn);
            IsPow2(p') && f < p' <= s < 2 * p' && StripOnes(fn, p - 1) == (f, p' - 1)
    decreases fn
  {
    hide StripOnes, IsPow2;
    StripStep(fn, sn);
    StripStep(fn, p - 1);
    if fn % 2 == 1 {
      HalveSum(fn, p);
      p' := StripLeft(fn / 2, sn / 2, p / 2);
    } else {
      p' := p;
    }
  }

  lemma {:induction false} StripRight(fn: nat, sn: nat, p: nat) returns (p': nat)
    requires IsPow2(p) && fn < sn < p
    ensures var (f, s) := StripOnes(fn, sn);
            IsPow2(p') && f <= s < p' && StripOnes(fn + p, sn + p) == (f + p', s + p')
    decreases fn
  {
    hide StripOnes, IsPow2;
    StripStep(fn, sn);
    StripStep(fn + p, sn + p);
    HalveSum(fn, p);
    HalveSum(sn, p);
    if fn % 2 == 1 {
      p' := StripRight(fn / 2, sn / 2, p / 2);
    } else {
      p' := p;
    }
  }

  /** A subtree of a power of two leaves is entered at its root. */
  lemma {:induction false} StripPow2(p: nat)
    requires IsPow2(p)
    ensures StripOnes(p - 1, p - 1) == (0, 0)
  {
    if p > 1 {
      StripPow2(p / 2);
      assert (p - 1) / 2 == p / 2 - 1;
    }
  }

  /** The entries that the climb starts from: the old root stands for a subtree that is the whole old tree. */
  function Entries(m: nat, whole: bool, oldRoot: bytes, proof: seq<bytes>): seq<bytes> {
    if whole && IsPow2(m) then [oldRoot] + proof else proof
  }

  lemma WalkProofStep(h: HashFn, m: nat, n: nat, entries: seq<bytes>)
    requires 0 < m <= n
    ensures entries == [] ==> WalkProof(h, m, n, entries) == None
    ensures entries != [] ==>
              WalkProof(h, m, n, entries)
              == WalkBoth(h, StripOnes(m - 1, n - 1).0, StripOnes(m - 1, n - 1).1, Roots(entries[0], entries[0]), entries[1..])
  {
  }

  lemma WalkProofEnd(h: HashFn, m: nat, whole: bool, oldRoot: bytes, proof: seq<bytes>)
    requires IsPow2(m)
    ensures WalkProof(h, m, m, Entries(m, whole, oldRoot, proof)) == RootsFromProof(h, m, m, whole, oldRoot, proof)
  {
    hide StripOnes, WalkBoth;
    StripPow2(m);
    var entries := Entries(m, whole, oldRoot, proof);
    if entries != [] {
      BothEnd(h, 0, 0, Roots(entries[0], entries[0]), entries[1..]);
    }
  }

  lemma WalkProofLeft(h: HashFn, m: nat, n: nat, k: nat, entries: seq<bytes>, last: bytes)
    requires 0 < m <= k < n <= 2 * k && IsPow2(k)
    ensures WalkProof(h, m, n, entries + [last]) == BothOnLeft(h, WalkProof(h, m, k, entries), last)
  {
    hide WalkProof, StripOnes, WalkBoth, NodeHash;
    var p' := StripLeft(m - 1, n - 1, k);
    var (f, s) := StripOnes(m - 1, n - 1);
    WalkProofStep(h, m, n, entries + [last]);
    WalkProofStep(h, m, k, entries);
    if entries == [] {
      assert (entries + [last])[1..] == [];
      BothEnd(h, f, s, Roots(last, last), []);
    } else {
      SnocTail(entries, last);
      BothLeft(h, f, s, p', Roots(entries[0], entries[0]), entries[1..], last);
    }
  }

  lemma WalkProofRight(h: HashFn, m: nat, n: nat, k: nat, entries: seq<bytes>, last: bytes)
    requires k < m < n <= 2 * k && IsPow2(k)
    ensures WalkProof(h, m, n, entries + [last]) == BothOnRight(h, WalkProof(h, m - k, n - k, entries), last)
  {
    hide WalkProof, StripOnes, WalkBoth, NodeHash;
    var p' := StripRight(m - k - 1, n - k - 1, k);
    var (f, s) := StripOnes(m - k - 1, n - k - 1);
    WalkProofStep(h, m, n, entries + [last]);
    WalkProofStep(h, m - k, n - k, entries);
    if entries == [] {
      assert (entries + [last])[1..] == [];
      BothEnd(h, f + p', s + p', Roots(last, last), []);
    } else {
      SnocTail(entries, last);
      BothRight(h, f, s, p', Roots(entries[0], entries[0]), entries[1..], last);
    }
  }

  lemma RootsFromProofStep(h: HashFn, m: nat, n: nat, whole: bool, oldRoot: bytes, proof: seq<bytes>)
    requires 0 < m < n
    ensures proof == [] ==> RootsFromProof(h, m, n, whole, oldRoot, proof) == None
    ensures proof != [] ==>
              var k := SplitPoint(n);
              RootsFromProof(h, m, n, whole, oldRoot, proof) ==
              if m <= k then BothOnLeft(h, RootsFromProof(h, m, k, whole, oldRoot, Init(proof)), Last(proof))
              else BothOnRight(h, RootsFromProof(h, m - k, n - k, false, oldRoot, Init(proof)), Last(proof))
  {
    hide SplitPoint, NodeHash;
  }

  lemma EntriesSnoc(m: nat, whole: bool, oldRoot: bytes, proof: seq<bytes>)
    requires proof != []
    ensures Entries(m, whole, oldRoot, proof) == Entries(m, whole, oldRoot, Init(proof)) + [Last(proof)]
  {
    hide IsPow2;
    InitThenLast(proof);
  }

  lemma EntriesEmpty(h: HashFn, m: nat, n: nat, whole: bool, oldRoot: bytes)
    requires 0 < m < n
    ensures WalkProof(h, m, n, Entries(m, whole, oldRoot, [])) == None
  {
    hide StripOnes, IsPow2, WalkBoth, WalkProof;
    var k := SplitPoint(n);
    var (f, s) := StripOnes(m - 1, n - 1);
    if m <= k {
      var p' := StripLeft(m - 1, n - 1, k);
      assert 0 < s;
    } else {
      var p' := StripRight(m - k - 1, n - k - 1, k);
      var (f', s') := StripOnes(m - k - 1, n - k - 1);
      assert (f, s) == (f' + p', s' + p');
    }
    assert 0 < s;
    var entries := Entries(m, whole, oldRoot, []);
    WalkProofStep(h, m, n, entries);
    if entries != [] {
      assert entries[0] == oldRoot && entries[1..] == [];
      BothEnd(h, f, s, Roots(oldRoot, oldRoot), []);
    }
  }

  lemma EntriesRight(m: nat, k: nat, whole: bool, oldRoot: bytes, proof: seq<bytes>)
    requires IsPow2(k) && k < m < 2 * k
    ensures Entries(m, whole, oldRoot, proof) == proof
  {
    if IsPow2(m) {
      Pow2Unique(m, k);
    }
  }

  lemma {:induction false} WalkIsRootsFromProof(h: HashFn, m: nat, n: nat, whole: bool, oldRoot: bytes, proof: seq<bytes>)
    requires 0 < m <= n && (m == n ==> IsPow2(m))
    ensures WalkProof(h, m, n, Entries(m, whole, oldRoot, proof)) == RootsFromProof(h, m, n, whole, oldRoot, proof)
    decreases n
  {
    hide *;
    if m == n {
      WalkProofEnd(h, m, whole, oldRoot, proof);
    } else {
      var k := SplitPoint(n);
      RootsFromProofStep(h, m, n, whole, oldRoot, proof);
      if proof == [] {
        EntriesEmpty(h, m, n, whole, oldRoot);
      } else if m <= k {
        EntriesSnoc(m, whole, oldRoot, proof);
        WalkProofLeft(h, m, n, k, Entries(m, whole, oldRoot, Init(proof)), Last(proof));
        WalkIsRootsFromProof(h, m, k, whole, oldRoot, Init(proof));
      } else {
        EntriesRight(m, k, whole, oldRoot, proof);
        InitThenLast(proof);
        WalkProofRight(h, m, n, k, Init(proof), Last(proof));
        EntriesPlain(m - k, oldRoot, Init(proof));
        WalkIsRootsFromProof(h, m - k, n - k, false, oldRoot, Init(proof));
      }
    }
  }

  lemma EntriesPlain(m: nat, oldRoot: bytes, proof: seq<bytes>)
    ensures Entries(m, false, oldRoot, proof) == proof
  {
  }

  // ----- the two checks as loops

  /** Accepts exactly the proofs that section 2.1.1 of RFC 6962 defines, for every index, size and list of hashes. */
  method VerifyInclusion(h: HashFn, index: nat, size: nat, leaf: bytes, path: seq<bytes>, root: bytes) returns (ok: bool)
    ensures ok == Included(h, index, size, leaf, path, root)
  {
    hide Walk, RootFromPath, NodeHash, Up, FromLeft;
    if index >= size {
      return false;
    }
    WalkIsRootFromPath(h, index, size, leaf, path);
    var fn: nat, sn: nat, r, i := index, size - 1, leaf, 0;
    while i < |path|
      invariant 0 <= i <= |path|
      invariant Walk(h, fn, sn, r, path[i..]) == Walk(h, index, size - 1, leaf, path)
    {
      if sn == 0 {
        WalkEnd(h, fn, sn, r, path[i..]);
        return false;
      }
      WalkStep(h, fn, sn, r, path[i..]);
      assert path[i..][1..] == path[i + 1..];
      r := if FromLeft(fn, sn) then NodeHash(h, path[i], r) else NodeHash(h, r, path[i]);
      var (fn', sn') := Up(fn, sn);
      fn, sn, i := fn', sn', i + 1;
    }
    WalkEnd(h, fn, sn, r, path[i..]);
    return sn == 0 && r == root;
  }

  /** Accepts exactly the proofs that section 2.1.2 of RFC 6962 defines, for every pair of sizes and list of hashes. */
  method VerifyConsistency(h: HashFn, size1: nat, size2: nat, proof: seq<bytes>, root1: bytes, root2: bytes) returns (ok: bool)
    ensures ok == Consistent(h, size1, size2, proof, root1, root2)
  {
    hide WalkBoth, RootsFromProof, NodeHash, Up, FromLeft, StripOnes, IsPow2;
    if size2 < size1 {
      return false;
    }
    if size1 == size2 {
      return proof == [] && root1 == root2;
    }
    if size1 == 0 {
      return proof == [];
    }
    WalkIsRootsFromProof(h, size1, size2, true, root1, proof);
    if proof == [] {
      EntriesEmpty(h, size1, size2, true, root1);
      return false;
    }
    var entries := if IsPow2(size1) then [root1] + proof else proof;
    var (fn, sn) := StripOnes(size1 - 1, size2 - 1);
    var r, i := Roots(entries[0], entries[0]), 1;
    while i < |entries|
      invariant 1 <= i <= |entries|
      invariant WalkBoth(h, fn, sn, r, entries[i..]) == WalkProof(h, size1, size2, entries)
    {
      if sn == 0 {
        BothEnd(h, fn, sn, r, entries[i..]);
        return false;
      }
      BothStep(h, fn, sn, r, entries[i..]);
      assert entries[i..][1..] == entries[i + 1..];
      r := if FromLeft(fn, sn) then Roots(NodeHash(h, entries[i], r.older), NodeHash(h, entries[i], r.newer))
           else Roots(r.older, NodeHash(h, r.newer, entries[i]));
      var (fn', sn') := Up(fn, sn);
      fn, sn, i := fn', sn', i + 1;
    }
    BothEnd(h, fn, sn, r, entries[i..]);
    return sn == 0 && r.older == root1 && r.newer == root2;
  }
}
