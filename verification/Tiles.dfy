/**
 Inclusion proofs from tiles (C2SP tlog-tiles, "Merkle Tree"): a tile of level l holds up to
 256 hashes, each the root of a full subtree of 256^l leaves. Nodes inside a tile, and the
 nodes of the unfinished right edge, are computed from the tiles that exist for a tree size.
 */
module Tiles {
  import opened Bytes
  import opened Hashing
  import opened Merkle

  const TILE_WIDTH := 256
  const TILE_HEIGHT := 8

  /** Reads a tile by level, index and width; width 0 asks for a full tile. */
  type ReadTile = (nat, nat, nat) -> Option<bytes>

  function Pow2(t: nat): (n: nat)
    ensures n > 0 && IsPow2(n)
  {
    if t == 0 then 1 else 2 * Pow2(t - 1)
  }

  function Log2(n: nat): (t: nat)
    requires IsPow2(n)
    ensures Pow2(t) == n
  {
    if n == 1 then 0 else 1 + Log2(n / 2)
  }

  /** The number of leaves under one hash of a tile: 256^level. */
  function Span(level: nat): (n: nat)
    ensures n > 0 && IsPow2(n)
  {
    Pow2(TILE_HEIGHT * level)
  }

  /** Position i in steps of b. Only the lemmas about At look inside this product. */
  function At(i: nat, b: nat): nat { i * b }

  /** The width of a tile in a log of the given size: 0 if it is full. */
  function PartialWidth(level: nat, index: nat, size: nat): nat {
    var atLevel := size / Span(level);
    if index < atLevel / TILE_WIDTH then 0 else atLevel % TILE_WIDTH
  }

  /** The hashes that a tile file holds. */
  function ParseTile(raw: bytes): (r: Option<seq<bytes>>)
    ensures r.Some? ==> |r.value| * HASH_SIZE == |raw|
  {
    if raw == [] then Some([])
    else if |raw| < HASH_SIZE then None
    else
      match ParseTile(raw[HASH_SIZE..])
      case None => None
      case Some(rest) => Some([raw[..HASH_SIZE]] + rest)
  }

  /** The root of w consecutive hashes, w a power of two. */
  function Fold(h: HashFn, hashes: seq<bytes>, off: nat, w: nat): bytes
    requires IsPow2(w) && off + w <= |hashes|
    decreases w
  {
    if w == 1 then hashes[off]
    else NodeHash(h, Fold(h, hashes, off, w / 2), Fold(h, hashes, off + w / 2, w / 2))
  }

  /** The node i of height s above the hashes of a tile level. */
  function TileNode(h: HashFn, read: ReadTile, size: nat, level: nat, s: nat, i: nat): Option<bytes> {
    var w := Pow2(s);
    var first := At(i, w);
    var index, off := first / TILE_WIDTH, first % TILE_WIDTH;
    match read(level, index, PartialWidth(level, index, size))
    case None => None
    case Some(raw) =>
      match ParseTile(raw)
      case None => None
      case Some(hashes) => if off + w <= |hashes| then Some(Fold(h, hashes, off, w)) else None
  }

  /** The node of height t and index i: the root of leaves [i * 2^t, (i + 1) * 2^t). */
  function FullNode(h: HashFn, read: ReadTile, size: nat, t: nat, i: nat): Option<bytes> {
    TileNode(h, read, size, t / TILE_HEIGHT, t % TILE_HEIGHT, i)
  }

  /** The root of leaves [lo, lo + n): one node if n is a power of two, else a node over two ranges. */
  function RangeFromTiles(h: HashFn, read: ReadTile, size: nat, lo: nat, n: nat): Option<bytes>
    requires n > 0
    decreases n
  {
    if IsPow2(n) then FullNode(h, read, size, Log2(n), lo / n)
    else
      var k := SplitPoint(n);
      match (RangeFromTiles(h, read, size, lo, k), RangeFromTiles(h, read, size, lo + k, n - k))
      case (Some(l), Some(r)) => Some(NodeHash(h, l, r))
      case _ => None
  }

  /** The audit path of leaf lo + m in leaves [lo, lo + n). */
  function PathFromTiles(h: HashFn, read: ReadTile, size: nat, m: nat, lo: nat, n: nat): Option<seq<bytes>>
    requires m < n
    decreases n
  {
    if n == 1 then Some([])
    else
      var k := SplitPoint(n);
      var sub, sibling :=
        if m < k then PathFromTiles(h, read, size, m, lo, k) else PathFromTiles(h, read, size, m - k, lo + k, n - k),
        if m < k then RangeFromTiles(h, read, size, lo + k, n - k) else RangeFromTiles(h, read, size, lo, k);
      match (sub, sibling)
      case (Some(path), Some(hash)) => Some(path + [hash])
      case _ => None
  }

  // ----- the tiles of a log

  lemma AtAdd(i: nat, j: nat, b: nat)
    ensures At(i + j, b) == At(i, b) + At(j, b)
  {
  }

  lemma AtOne(b: nat)
    ensures At(1, b) == b && At(0, b) == 0
  {
  }

  lemma AtMonotone(i: nat, j: nat, b: nat)
    requires i <= j
    ensures At(i, b) <= At(j, b)
  {
  }

  lemma AtAt(i: nat, w: nat, b: nat)
    ensures At(At(i, w), b) == At(i, At(w, b))
  {
    assert i * w * b == i * (w * b);
  }

  lemma AtDivMod(x: nat, b: nat)
    requires b > 0
    ensures At(x / b, b) <= x < At(x / b + 1, b) && x == At(x / b, b) + x % b
  {
  }

  lemma AtUnique(x: nat, d: nat, b: nat)
    requires b > 0 && At(d, b) <= x < At(d + 1, b)
    ensures x / b == d && x % b == x - At(d, b)
  {
    hide At;
    AtDivMod(x, b);
    if d < x / b {
      AtMonotone(d + 1, x / b, b);
    } else if x / b < d {
      AtMonotone(x / b + 1, d, b);
    }
  }

  lemma AtNext(i: nat, j: nat, b: nat)
    requires i < j
    ensures At(i, b) + b <= At(j, b)
  {
    hide At;
    AtAdd(i, 1, b);
    AtOne(b);
    AtMonotone(i + 1, j, b);
  }

  /** The root of subtree i of b leaves, if D has all of them. */
  function SubtreeRoot(h: HashFn, D: seq<bytes>, i: nat, b: nat): bytes {
    if At(i, b) + b <= |D| then RangeRoot(h, D, At(i, b), b) else []
  }

  function TileHashes(h: HashFn, D: seq<bytes>, first: nat, width: nat, b: nat): seq<bytes> {
    seq(width, j requires 0 <= j < width => SubtreeRoot(h, D, first + j, b))
  }

  function Concat(hashes: seq<bytes>): bytes {
    if hashes == [] then [] else hashes[0] + Concat(hashes[1..])
  }

  function Width(p: nat): nat { if p == 0 then TILE_WIDTH else p }

  /** The content of a tile of D, which holds the hashes of the subtrees from the given one on. */
  function TileContent(h: HashFn, D: seq<bytes>, level: nat, index: nat, p: nat): Option<bytes> {
    if p < TILE_WIDTH && At(index * TILE_WIDTH + Width(p), Span(level)) <= |D| then
      Some(Concat(TileHashes(h, D, index * TILE_WIDTH, Width(p), Span(level))))
    else None
  }

  /** Reading returns the tiles of D: every full tile, and every partial one up to the edge of D. */
  ghost predicate ServesTree(h: HashFn, D: seq<bytes>, read: ReadTile) {
    forall level: nat, index: nat, p: nat {:trigger read(level, index, p)} ::
      TileContent(h, D, level, index, p).Some? ==> read(level, index, p) == TileContent(h, D, level, index, p)
  }

  lemma {:induction false} ParseConcat(hashes: seq<bytes>)
    requires forall i :: 0 <= i < |hashes| ==> |hashes[i]| == HASH_SIZE
    ensures ParseTile(Concat(hashes)) == Some(hashes)
    decreases |hashes|
  {
    if hashes != [] {
      ParseConcat(hashes[1..]);
      var raw := Concat(hashes);
      assert raw[..HASH_SIZE] == hashes[0] && raw[HASH_SIZE..] == Concat(hashes[1..]);
      assert hashes == [hashes[0]] + hashes[1..];
    }
  }

  // ----- proofs from the tiles of a log are its audit paths

  lemma {:induction false} Pow2Add(a: nat, b: nat)
    ensures Pow2(a + b) == At(Pow2(a), Pow2(b))
  {
    hide At, IsPow2;
    AtOne(Pow2(b));
    if a > 0 {
      Pow2Add(a - 1, b);
      AtAdd(Pow2(a - 1), Pow2(a - 1), Pow2(b));
      assert a + b - 1 == a - 1 + b;
    }
  }

  lemma Pow2Half(a: nat)
    requires IsPow2(a)
    ensures a > 0 && (a > 1 ==> a == a / 2 + a / 2 && IsPow2(a / 2))
  {
  }

  lemma DoublePow2(c: nat)
    requires IsPow2(c)
    ensures IsPow2(c + c)
  {
  }

  lemma {:induction false} Pow2Product(a: nat, b: nat)
    requires IsPow2(a) && IsPow2(b)
    ensures IsPow2(At(a, b))
  {
    hide At, IsPow2;
    Pow2Half(a);
    if a == 1 {
      AtOne(b);
    } else {
      Pow2Product(a / 2, b);
      AtAdd(a / 2, a / 2, b);
      DoublePow2(At(a / 2, b));
    }
  }

  lemma {:induction false} AlignedDown(lo: nat, p: nat, k: nat)
    requires IsPow2(p) && IsPow2(k) && k <= p && lo % p == 0
    ensures lo % k == 0
    decreases p
  {
    if k < p {
      if k > p / 2 {
        Pow2Unique(k, p / 2);
      } else {
        HalfAligned(lo, p / 2);
        AlignedDown(lo, p / 2, k);
      }
    }
  }

  lemma HalfAligned(lo: nat, q: nat)
    requires q > 0 && lo % (2 * q) == 0
    ensures lo % q == 0
  {
    var a := lo / (2 * q);
    assert lo == a * (2 * q);
    AtMod(2 * a, q);
    assert At(2 * a, q) == a * (2 * q);
  }

  lemma AtMod(a: nat, q: nat)
    requires q > 0
    ensures At(a, q) % q == 0 && At(a, q) / q == a
  {
    hide At;
    AtAdd(a, 1, q);
    AtOne(q);
    AtUnique(At(a, q), a, q);
  }

  lemma HalfSplit(w: nat, b: nat)
    requires IsPow2(w) && w > 1 && IsPow2(b)
    ensures IsPow2(w / 2) && w == w / 2 + w / 2
    ensures At(w, b) == At(w / 2, b) + At(w / 2, b) > 1 && SplitPoint(At(w, b)) == At(w / 2, b)
  {
    hide At, SplitPoint, IsPow2;
    Pow2Half(w);
    Pow2Product(w / 2, b);
    AtAdd(w / 2, w / 2, b);
    Pow2Half(At(w / 2, b));
    SplitPointUnique(At(w, b), At(w / 2, b));
  }

  lemma SubtreeRootIs(h: HashFn, D: seq<bytes>, i: nat, b: nat)
    requires At(i, b) + b <= |D|
    ensures SubtreeRoot(h, D, i, b) == RangeRoot(h, D, At(i, b), b) && |SubtreeRoot(h, D, i, b)| == HASH_SIZE
  {
  }

  // ----- the layout of tiles

  /** One hash of a tile stands for 256^level leaves. */
  lemma SpanSteps(level: nat)
    ensures Span(0) == 1 && Span(level + 1) == 256 * Span(level)
  {
    hide IsPow2;
    assert TILE_HEIGHT * (level + 1) == 8 + TILE_HEIGHT * level;
    Pow2Add(8, TILE_HEIGHT * level);
    assert Pow2(8) == 256;
  }

  lemma {:induction false} ConcatAt(hashes: seq<bytes>, j: nat)
    requires forall i :: 0 <= i < |hashes| ==> |hashes[i]| == 32
    ensures |Concat(hashes)| == 32 * |hashes|
    ensures j < |hashes| ==> Concat(hashes)[32 * j..32 * j + 32] == hashes[j]
    decreases |hashes|
  {
    if hashes != [] {
      var raw, tail := Concat(hashes), Concat(hashes[1..]);
      ConcatAt(hashes[1..], if j > 0 then j - 1 else 0);
      if j == 0 {
        assert raw[0..32] == hashes[0];
      } else if j < |hashes| {
        assert raw[32 * j..32 * j + 32] == tail[32 * (j - 1)..32 * (j - 1) + 32];
        assert hashes[1..][j - 1] == hashes[j];
      }
    }
  }

  lemma WithinTile(first: nat, width: nat, j: nat, b: nat)
    requires j < width
    ensures At(first + j, b) + b <= At(first + width, b)
  {
    hide At;
    AtNext(first + j, first + width, b);
  }

  /**
   A tile file is 256 hashes of 32 bytes, or fewer if it is partial; hash j of the tile is the root
   of its subtree of 256^level leaves.
   */
  lemma TileHoldsSubtrees(h: HashFn, D: seq<bytes>, level: nat, index: nat, p: nat, j: nat)
    requires TileContent(h, D, level, index, p).Some? && j < if p == 0 then 256 else p
    ensures var raw, first := TileContent(h, D, level, index, p).value, At(index * 256 + j, Span(level));
            && p < 256 && |raw| == 32 * (if p == 0 then 256 else p)
            && first + Span(level) <= |D|
            && raw[32 * j..32 * j + 32] == RangeRoot(h, D, first, Span(level))
  {
    hide At, Span, RangeRoot, SubtreeRoot, IsPow2;
    var width, b := Width(p), Span(level);
    var hashes := TileHashes(h, D, index * TILE_WIDTH, width, b);
    forall i | 0 <= i < width ensures |hashes[i]| == 32 && hashes[i] == SubtreeRoot(h, D, index * 256 + i, b) {
      WithinTile(index * TILE_WIDTH, width, i, b);
      SubtreeRootIs(h, D, index * TILE_WIDTH + i, b);
    }
    ConcatAt(hashes, j);
    WithinTile(index * TILE_WIDTH, width, j, b);
    SubtreeRootIs(h, D, index * TILE_WIDTH + j, b);
  }

  lemma FoldStep(h: HashFn, hashes: seq<bytes>, off: nat, w: nat)
    requires IsPow2(w) && off + w <= |hashes|
    ensures w == 1 ==> Fold(h, hashes, off, w) == hashes[off]
    ensures w > 1 ==>
              && IsPow2(w / 2) && w == 2 * (w / 2)
              && Fold(h, hashes, off, w) == NodeHash(h, Fold(h, hashes, off, w / 2), Fold(h, hashes, off + w / 2, w / 2))
  {
    hide NodeHash;
  }

  lemma {:induction false} FoldIsRoot(h: HashFn, D: seq<bytes>, hashes: seq<bytes>, base: nat, b: nat, off: nat, w: nat)
    requires IsPow2(w) && IsPow2(b) && off + w <= |hashes|
    requires At(base + off + w, b) <= |D|
    requires forall j :: off <= j < off + w ==> hashes[j] == SubtreeRoot(h, D, base + j, b)
    ensures At(base + off, b) + At(w, b) == At(base + off + w, b)
    ensures Fold(h, hashes, off, w) == RangeRoot(h, D, At(base + off, b), At(w, b))
    decreases w
  {
    hide *;
    AtAdd(base + off, w, b);
    Pow2Half(w);
    FoldStep(h, hashes, off, w);
    if w == 1 {
      AtOne(b);
      SubtreeRootIs(h, D, base + off, b);
    } else {
      HalfSplit(w, b);
      var v := w / 2;
      AtMonotone(base + off + v, base + off + w, b);
      FoldIsRoot(h, D, hashes, base, b, off, v);
      FoldIsRoot(h, D, hashes, base, b, off + v, v);
      assert base + (off + v) == base + off + v;
      TreeStep(h, D, At(base + off, b), At(w, b));
    }
  }

  lemma AlignedInTile(i: nat, w: nat, c: nat)
    requires At(c, w) == TILE_WIDTH && w > 0
    ensures At(i, w) % TILE_WIDTH + w <= TILE_WIDTH
  {
    hide At;
    AtOne(w);
    if c == 0 {
      assert false;
    } else {
      var q, r := i / c, i % c;
      AtDivMod(i, c);
      AtAdd(At(q, c), r, w);
      AtAt(q, c, w);
      AtAdd(r, 1, w);
      AtMonotone(r + 1, c, w);
      AtAdd(q, 1, TILE_WIDTH);
      AtOne(TILE_WIDTH);
      AtUnique(At(i, w), q, TILE_WIDTH);
    }
  }

  /** The tile that holds a node of a tree exists for the size of that tree, and is wide enough. */
  lemma TileExists(first: nat, w: nat, level: nat, size: nat)
    requires 0 < w && first % TILE_WIDTH + w <= TILE_WIDTH && At(first + w, Span(level)) <= size
    ensures var index, off := first / TILE_WIDTH, first % TILE_WIDTH;
            var p := PartialWidth(level, index, size);
            p < TILE_WIDTH && off + w <= Width(p) && At(index * TILE_WIDTH + Width(p), Span(level)) <= size
  {
    hide Span, At;
    var b := Span(level);
    var atLevel := size / b;
    var index := first / TILE_WIDTH;
    AtDivMod(size, b);
    if atLevel < first + w {
      AtMonotone(atLevel + 1, first + w, b);
    }
    if index < atLevel / TILE_WIDTH {
      AtMonotone(index * TILE_WIDTH + TILE_WIDTH, atLevel, b);
    } else {
      assert index == atLevel / TILE_WIDTH;
      assert index * TILE_WIDTH + atLevel % TILE_WIDTH == atLevel;
    }
  }

  lemma SpanOf(t: nat)
    ensures Pow2(t) == At(Pow2(t % TILE_HEIGHT), Span(t / TILE_HEIGHT))
  {
    hide Pow2, At;
    Pow2Add(t % TILE_HEIGHT, TILE_HEIGHT * (t / TILE_HEIGHT));
  }

  lemma TileDivides(s: nat)
    requires s <= TILE_HEIGHT
    ensures At(Pow2(TILE_HEIGHT - s), Pow2(s)) == TILE_WIDTH
  {
    hide At;
    Pow2Add(TILE_HEIGHT - s, s);
    assert Pow2(2) == 4 && Pow2(4) == 16 && Pow2(6) == 64;
  }

  lemma TileRead(h: HashFn, D: seq<bytes>, read: ReadTile, level: nat, index: nat, p: nat)
    requires ServesTree(h, D, read) && p < TILE_WIDTH && At(index * TILE_WIDTH + Width(p), Span(level)) <= |D|
    ensures read(level, index, p).Some?
    ensures ParseTile(read(level, index, p).value)
         == Some(TileHashes(h, D, index * TILE_WIDTH, Width(p), Span(level)))
  {
    hide Span, At, RangeRoot, Concat, ParseTile, SubtreeRoot;
    assert TileContent(h, D, level, index, p).Some?;
    var first, width, b := index * TILE_WIDTH, Width(p), Span(level);
    var hashes := TileHashes(h, D, first, width, b);
    forall j | 0 <= j < width ensures |hashes[j]| == HASH_SIZE {
      AtNext(first + j, first + width, b);
      SubtreeRootIs(h, D, first + j, b);
    }
    ParseConcat(hashes);
  }

  lemma TileNodeIsRoot(h: HashFn, D: seq<bytes>, read: ReadTile, size: nat, level: nat, s: nat, i: nat)
    requires s < TILE_HEIGHT && ServesTree(h, D, read) && size <= |D| && At(At(i, Pow2(s)) + Pow2(s), Span(level)) <= size
    ensures var first := At(i, Pow2(s));
            At(first, Span(level)) + At(Pow2(s), Span(level)) <= |D|
            && TileNode(h, read, size, level, s, i) == Some(RangeRoot(h, D, At(first, Span(level)), At(Pow2(s), Span(level))))
  {
    hide Span, Pow2, At, RangeRoot, Fold, ParseTile, PartialWidth, IsPow2, ServesTree, SubtreeRoot;
    var w, b := Pow2(s), Span(level);
    var first := At(i, w);
    var index, off := first / TILE_WIDTH, first % TILE_WIDTH;
    TileDivides(s);
    AlignedInTile(i, w, Pow2(TILE_HEIGHT - s));
    TileExists(first, w, level, size);
    var p := PartialWidth(level, index, size);
    TileRead(h, D, read, level, index, p);
    var hashes := TileHashes(h, D, index * TILE_WIDTH, Width(p), b);
    assert index * TILE_WIDTH + off == first;
    FoldIsRoot(h, D, hashes, index * TILE_WIDTH, b, off, w);
  }

  lemma FullNodeIsRoot(h: HashFn, D: seq<bytes>, read: ReadTile, size: nat, t: nat, i: nat)
    requires ServesTree(h, D, read) && size <= |D| && At(i, Pow2(t)) + Pow2(t) <= size
    ensures FullNode(h, read, size, t, i) == Some(RangeRoot(h, D, At(i, Pow2(t)), Pow2(t)))
  {
    hide ServesTree, TileNode, At, Pow2, Span, RangeRoot;
    var level, s := t / TILE_HEIGHT, t % TILE_HEIGHT;
    SpanOf(t);
    AtAt(i, Pow2(s), Span(level));
    AtAdd(At(i, Pow2(s)), Pow2(s), Span(level));
    TileNodeIsRoot(h, D, read, size, level, s, i);
  }

  lemma {:induction false} RangeFromTilesIsRoot(h: HashFn, D: seq<bytes>, read: ReadTile, size: nat, lo: nat, n: nat, p: nat)
    requires ServesTree(h, D, read) && lo + n <= size <= |D| && 0 < n <= p && IsPow2(p) && lo % p == 0
    ensures RangeFromTiles(h, read, size, lo, n) == Some(RangeRoot(h, D, lo, n))
    decreases n
  {
    hide ServesTree, RangeRoot, IsPow2, SplitPoint, FullNode, NodeHash, Pow2, At;
    Pow2One();
    if IsPow2(n) {
      AlignedDown(lo, p, n);
      AtDivMod(lo, n);
      FullNodeIsRoot(h, D, read, size, Log2(n), lo / n);
    } else {
      var k := SplitPoint(n);
      AlignedBelow(lo, p, n);
      RangeFromTilesIsRoot(h, D, read, size, lo, k, k);
      RangeFromTilesIsRoot(h, D, read, size, lo + k, n - k, k);
      TreeStep(h, D, lo, n);
    }
  }

  lemma Pow2One()
    ensures IsPow2(1)
  {
  }

  lemma AlignedBelow(lo: nat, p: nat, n: nat)
    requires 1 < n <= p && IsPow2(p) && lo % p == 0
    ensures var k := SplitPoint(n); lo % k == 0 && (lo + k) % k == 0
  {
    hide IsPow2, SplitPoint, At;
    var k := SplitPoint(n);
    AlignedDown(lo, p, k);
    AtDivMod(lo, k);
    AtAdd(lo / k, 1, k);
    AtOne(k);
    AtMod(lo / k + 1, k);
  }

  /** From the tiles of a log, for every tree size and every leaf below it, the RFC 6962 audit path. */
  lemma {:induction false} PathFromTilesIsPath(h: HashFn, D: seq<bytes>, read: ReadTile, size: nat, m: nat, lo: nat, n: nat, p: nat)
    requires ServesTree(h, D, read) && lo + n <= size <= |D| && m < n <= p && IsPow2(p) && lo % p == 0
    ensures PathFromTiles(h, read, size, m, lo, n) == Some(RangePath(h, m, D, lo, n))
    decreases n
  {
    hide ServesTree, RangeRoot, IsPow2, SplitPoint, RangeFromTiles;
    if n > 1 {
      var k := SplitPoint(n);
      AlignedBelow(lo, p, n);
      if m < k {
        PathFromTilesIsPath(h, D, read, size, m, lo, k, k);
        RangeFromTilesIsRoot(h, D, read, size, lo + k, n - k, k);
      } else {
        PathFromTilesIsPath(h, D, read, size, m - k, lo + k, n - k, k);
        RangeFromTilesIsRoot(h, D, read, size, lo, k, k);
      }
    }
  }

  lemma {:induction false} RangePathFrame(h: HashFn, m: nat, A: seq<bytes>, B: seq<bytes>, lo: nat, n: nat)
    requires m < n && lo + n <= |A| && lo + n <= |B|
    requires forall i :: lo <= i < lo + n ==> A[i] == B[i]
    ensures RangePath(h, m, A, lo, n) == RangePath(h, m, B, lo, n)
    decreases n
  {
    hide RangeRoot, SplitPoint;
    if n > 1 {
      var k := SplitPoint(n);
      if m < k {
        RangePathFrame(h, m, A, B, lo, k);
        RangeRootFrame(h, A, B, lo + k, n - k);
      } else {
        RangePathFrame(h, m - k, A, B, lo + k, n - k);
        RangeRootFrame(h, A, B, lo, k);
      }
    }
  }

  // ----- reads that may fail

  /** Every read fails or agrees with another store. */
  ghost predicate Below(read: ReadTile, full: ReadTile) {
    forall level: nat, index: nat, p: nat {:trigger read(level, index, p)} ::
      read(level, index, p).None? || read(level, index, p) == full(level, index, p)
  }

  lemma {:induction false} RangeBelow(h: HashFn, read: ReadTile, full: ReadTile, size: nat, lo: nat, n: nat)
    requires Below(read, full) && n > 0
    ensures RangeFromTiles(h, read, size, lo, n).Some? ==> RangeFromTiles(h, read, size, lo, n) == RangeFromTiles(h, full, size, lo, n)
    decreases n
  {
    hide IsPow2, SplitPoint, NodeHash, Fold, ParseTile, PartialWidth, Pow2, Log2, At;
    if !IsPow2(n) {
      Pow2One();
      var k := SplitPoint(n);
      RangeBelow(h, read, full, size, lo, k);
      RangeBelow(h, read, full, size, lo + k, n - k);
    }
  }

  lemma {:induction false} PathBelow(h: HashFn, read: ReadTile, full: ReadTile, size: nat, m: nat, lo: nat, n: nat)
    requires Below(read, full) && m < n
    ensures PathFromTiles(h, read, size, m, lo, n).Some? ==> PathFromTiles(h, read, size, m, lo, n) == PathFromTiles(h, full, size, m, lo, n)
    decreases n
  {
    hide Below, SplitPoint, RangeFromTiles;
    if n > 1 {
      var k := SplitPoint(n);
      if m < k {
        PathBelow(h, read, full, size, m, lo, k);
        RangeBelow(h, read, full, size, lo + k, n - k);
      } else {
        PathBelow(h, read, full, size, m - k, lo + k, n - k);
        RangeBelow(h, read, full, size, lo, k);
      }
    }
  }

  /** The store that holds exactly the tiles of D. */
  ghost function TilesOf(h: HashFn, D: seq<bytes>): (read: ReadTile)
    ensures ServesTree(h, D, read)
    ensures forall level: nat, index: nat, p: nat :: read(level, index, p) == TileContent(h, D, level, index, p)
  {
    (level: nat, index: nat, p: nat) => TileContent(h, D, level, index, p)
  }
}
