/**
 The loop at the heart of DSSE admission, without the cryptography: verifiers are visited in
 some order, each takes away the signatures it accepts and is recorded for them, an error stops
 the loop, and so does the moment at which no signature is left.
 */
module Cover {
  import opened Bytes

  /** The signatures each verifier accepts, or none where checking it is an error. */
  type Acceptance<!V(!new)> = V -> Option<set<bytes>>

  datatype Progress<V> = Progress(left: set<bytes>, found: map<bytes, V>)

  function Record<V>(found: map<bytes, V>, sigs: set<bytes>, v: V): map<bytes, V> {
    found + map s | s in sigs :: v
  }

  function Loop<V(!new)>(acc: Acceptance<V>, order: seq<V>, p: Progress<V>): Option<Progress<V>>
    decreases |order|
  {
    if order == [] || p.left == {} then Some(p)
    else
      match acc(order[0])
      case None => None
      case Some(sigs) => Loop(acc, order[1..], Progress(p.left - sigs, Record(p.found, sigs, order[0])))
  }

  /** The loop succeeds when it ends with no signature left. */
  function Run<V(!new)>(acc: Acceptance<V>, order: seq<V>, sigs: set<bytes>): Option<map<bytes, V>> {
    match Loop(acc, order, Progress(sigs, map[]))
    case None => None
    case Some(p) => if p.left == {} then Some(p.found) else None
  }

  /** An iteration order over a Go map: every key once. */
  ghost predicate IsOrderOf<V(!new)>(order: seq<V>, keys: set<V>) {
    NoDuplicates(order) && forall v :: v in order <==> v in keys
  }

  ghost predicate Accepts<V(!new)>(acc: Acceptance<V>, v: V, s: bytes) {
    acc(v).Some? && s in acc(v).value
  }

  ghost predicate Covered<V(!new)>(acc: Acceptance<V>, keys: set<V>, sigs: set<bytes>) {
    forall s :: s in sigs ==> exists v :: v in keys && Accepts(acc, v, s)
  }

  // ----- what a run records

  /** Whatever the order, what is recorded was accepted, and nothing is lost. */
  lemma {:induction false} LoopInvariant<V(!new)>(acc: Acceptance<V>, order: seq<V>, p: Progress<V>, sigs: set<bytes>, all: set<V>)
    requires forall v :: v in order ==> v in all && (acc(v).Some? ==> acc(v).value <= sigs)
    requires p.left <= sigs && p.found.Keys <= sigs && sigs <= p.left + p.found.Keys
    requires forall s :: s in p.found ==> p.found[s] in all && Accepts(acc, p.found[s], s)
    requires Loop(acc, order, p).Some?
    ensures var q := Loop(acc, order, p).value;
            && q.left <= sigs && q.found.Keys <= sigs && sigs <= q.left + q.found.Keys
            && forall s :: s in q.found ==> q.found[s] in all && Accepts(acc, q.found[s], s)
    decreases |order|
  {
    if order != [] && p.left != {} {
      var v := order[0];
      assert v in order;
      var q := Progress(p.left - acc(v).value, Record(p.found, acc(v).value, v));
      assert q.found.Keys == p.found.Keys + acc(v).value;
      LoopInvariant(acc, order[1..], q, sigs, all);
    }
  }

  /** A successful run records exactly the given signatures, each for a verifier that accepts it. */
  lemma RunRecords<V(!new)>(acc: Acceptance<V>, order: seq<V>, sigs: set<bytes>, all: set<V>)
    requires forall v :: v in order ==> v in all && (acc(v).Some? ==> acc(v).value <= sigs)
    requires Run(acc, order, sigs).Some?
    ensures var found := Run(acc, order, sigs).value;
            found.Keys == sigs && forall s :: s in found ==> found[s] in all && Accepts(acc, found[s], s)
  {
    hide Loop, Accepts;
    LoopInvariant(acc, order, Progress(sigs, map[]), sigs, all);
  }

  // ----- when a run succeeds

  /** Without an error on the way, the loop ends with exactly the signatures that nobody accepts. */
  lemma {:induction false} LoopLeaves<V(!new)>(acc: Acceptance<V>, order: seq<V>, p: Progress<V>)
    requires forall v :: v in order ==> acc(v).Some?
    ensures Loop(acc, order, p).Some?
    ensures forall s :: s in Loop(acc, order, p).value.left <==> s in p.left && forall v :: v in order ==> !Accepts(acc, v, s)
    decreases |order|
  {
    if order != [] && p.left != {} {
      var v := order[0];
      assert v in order;
      var q := Progress(p.left - acc(v).value, Record(p.found, acc(v).value, v));
      assert forall w :: w in order <==> w == v || w in order[1..];
      LoopLeaves(acc, order[1..], q);
    }
  }

  lemma RunWithoutErrors<V(!new)>(acc: Acceptance<V>, order: seq<V>, keys: set<V>, sigs: set<bytes>)
    requires IsOrderOf(order, keys) && forall v :: v in keys ==> acc(v).Some?
    ensures Run(acc, order, sigs).Some? <==> Covered(acc, keys, sigs)
  {
    hide Loop;
    LoopLeaves(acc, order, Progress(sigs, map[]));
    var left := Loop(acc, order, Progress(sigs, map[])).value.left;
    if left == {} {
      forall s | s in sigs ensures exists v :: v in keys && Accepts(acc, v, s) {
        assert s !in left;
        var v :| v in order && Accepts(acc, v, s);
      }
    } else {
      var s :| s in left;
      assert s in sigs && forall v :: v in keys ==> !Accepts(acc, v, s);
    }
  }

  lemma {:induction false} LoopOnPrefix<V(!new)>(acc: Acceptance<V>, first: seq<V>, rest: seq<V>, p: Progress<V>)
    requires Loop(acc, first, p).Some?
    ensures Loop(acc, first + rest, p) == Loop(acc, rest, Loop(acc, first, p).value)
    decreases |first|
  {
    if first == [] {
      assert first + rest == rest;
    } else if p.left != {} {
      assert (first + rest)[0] == first[0] && (first + rest)[1..] == first[1..] + rest;
      LoopOnPrefix(acc, first[1..], rest, Progress(p.left - acc(first[0]).value, Record(p.found, acc(first[0]).value, first[0])));
    }
  }

  /** What is left at the end of a loop was accepted by nobody. */
  lemma LeftIsNotCovered<V(!new)>(acc: Acceptance<V>, order: seq<V>, keys: set<V>, sigs: set<bytes>)
    requires IsOrderOf(order, keys)
    requires var p := Loop(acc, order, Progress(sigs, map[])); p.Some? && p.value.left != {}
    ensures !Covered(acc, keys, sigs)
  {
    hide Loop;
    var p := Progress(sigs, map[]);
    LeftMeansNoError(acc, order, p);
    RunWithoutErrors(acc, order, keys, sigs);
  }

  lemma {:induction false} LeftMeansNoError<V(!new)>(acc: Acceptance<V>, order: seq<V>, p: Progress<V>)
    requires Loop(acc, order, p).Some? && Loop(acc, order, p).value.left != {}
    ensures forall v :: v in order ==> acc(v).Some?
    decreases |order|
  {
    if order != [] {
      LeftMeansNoError(acc, order[1..], Progress(p.left - acc(order[0]).value, Record(p.found, acc(order[0]).value, order[0])));
      assert forall v :: v in order ==> v == order[0] || v in order[1..];
    }
  }

  ghost function Good<V(!new)>(acc: Acceptance<V>, keys: set<V>): set<V> {
    set v | v in keys && acc(v).Some?
  }

  lemma {:induction false} OrderExists<V(!new)>(keys: set<V>) returns (order: seq<V>)
    ensures IsOrderOf(order, keys)
  {
    if keys == {} {
      order := [];
    } else {
      var v :| v in keys;
      var rest := OrderExists(keys - {v});
      order := [v] + rest;
    }
  }

  lemma OrderConcat<V(!new)>(a: seq<V>, b: seq<V>, keysA: set<V>, keysB: set<V>)
    requires IsOrderOf(a, keysA) && IsOrderOf(b, keysB) && keysA !! keysB
    ensures IsOrderOf(a + b, keysA + keysB)
  {
    var c := a + b;
    forall i, j | 0 <= i < j < |c| ensures c[i] != c[j] {
      if i < |a| <= j {
        assert c[i] in keysA && c[j] == b[j - |a|] && c[j] in keysB;
      }
    }
  }

  /** The verifiers that accept something come first: their signatures are gone before an error is met. */
  lemma GoodFirstSucceeds<V(!new)>(acc: Acceptance<V>, keys: set<V>, sigs: set<bytes>) returns (order: seq<V>)
    requires Covered(acc, keys, sigs)
    ensures IsOrderOf(order, keys) && Run(acc, order, sigs).Some?
  {
    hide Loop;
    var good := Good(acc, keys);
    var first := OrderExists(good);
    var rest := OrderExists(keys - good);
    OrderConcat(first, rest, good, keys - good);
    assert good + (keys - good) == keys;
    order := first + rest;
    var p := Progress(sigs, map[]);
    assert Covered(acc, good, sigs);
    RunWithoutErrors(acc, first, good, sigs);
    LoopLeaves(acc, first, p);
    LoopOnPrefix(acc, first, rest, p);
    LoopStops(acc, rest, Loop(acc, first, p).value);
  }

  lemma LoopStops<V(!new)>(acc: Acceptance<V>, order: seq<V>, p: Progress<V>)
    requires p.left == {}
    ensures Loop(acc, order, p) == Some(p)
  {
  }

  lemma BadFirstFails<V(!new)>(acc: Acceptance<V>, keys: set<V>, sigs: set<bytes>, bad: V) returns (order: seq<V>)
    requires bad in keys && acc(bad).None? && sigs != {}
    ensures IsOrderOf(order, keys) && Run(acc, order, sigs).None?
  {
    var rest := OrderExists(keys - {bad});
    order := [bad] + rest;
  }

  ghost predicate VerdictIndependent<V(!new)>(acc: Acceptance<V>, keys: set<V>, sigs: set<bytes>) {
    forall a, b :: IsOrderOf(a, keys) && IsOrderOf(b, keys) ==> Run(acc, a, sigs).Some? == Run(acc, b, sigs).Some?
  }

  lemma {:induction false} LoopNeedsCover<V(!new)>(acc: Acceptance<V>, order: seq<V>, p: Progress<V>, s: bytes)
    requires Loop(acc, order, p).Some? && s in p.left && forall v :: v in order ==> !Accepts(acc, v, s)
    ensures s in Loop(acc, order, p).value.left
    decreases |order|
  {
    if order != [] && p.left != {} {
      assert order[0] in order;
      LoopNeedsCover(acc, order[1..], Progress(p.left - acc(order[0]).value, Record(p.found, acc(order[0]).value, order[0])), s);
    }
  }

  lemma UncoveredFails<V(!new)>(acc: Acceptance<V>, order: seq<V>, keys: set<V>, sigs: set<bytes>)
    requires IsOrderOf(order, keys) && !Covered(acc, keys, sigs)
    ensures Run(acc, order, sigs).None?
  {
    hide Loop;
    var s :| s in sigs && forall v :: v in keys ==> !Accepts(acc, v, s);
    var p := Progress(sigs, map[]);
    if Loop(acc, order, p).Some? {
      LoopNeedsCover(acc, order, p, s);
    }
  }

  /**
   The verdict does not depend on the order exactly when no verifier is an error, or some
   signature is accepted by nobody. Otherwise one order succeeds and another fails.
   */
  lemma VerdictIndependence<V(!new)>(acc: Acceptance<V>, keys: set<V>, sigs: set<bytes>)
    requires sigs != {}
    ensures VerdictIndependent(acc, keys, sigs)
       <==> (forall v :: v in keys ==> acc(v).Some?) || !Covered(acc, keys, sigs)
  {
    hide Loop, Covered;
    if !Covered(acc, keys, sigs) {
      forall a, b | IsOrderOf(a, keys) && IsOrderOf(b, keys) ensures Run(acc, a, sigs).Some? == Run(acc, b, sigs).Some? {
        UncoveredFails(acc, a, keys, sigs);
        UncoveredFails(acc, b, keys, sigs);
      }
    } else if forall v :: v in keys ==> acc(v).Some? {
      forall a, b | IsOrderOf(a, keys) && IsOrderOf(b, keys) ensures Run(acc, a, sigs).Some? == Run(acc, b, sigs).Some? {
        RunWithoutErrors(acc, a, keys, sigs);
        RunWithoutErrors(acc, b, keys, sigs);
      }
    } else {
      var bad :| bad in keys && acc(bad).None?;
      var a := GoodFirstSucceeds(acc, keys, sigs);
      var b := BadFirstFails(acc, keys, sigs, bad);
    }
  }

  // ----- when a run records the same map in every order

  /** No signature is accepted by two verifiers. */
  ghost predicate Disjoint<V(!new)>(acc: Acceptance<V>, keys: set<V>) {
    forall v, w, s :: v in keys && w in keys && Accepts(acc, v, s) && Accepts(acc, w, s) ==> v == w
  }

  /** If no two verifiers accept the same signature, any two successful runs record the same map. */
  lemma SameRecord<V(!new)>(acc: Acceptance<V>, a: seq<V>, b: seq<V>, keys: set<V>, sigs: set<bytes>)
    requires IsOrderOf(a, keys) && IsOrderOf(b, keys) && Disjoint(acc, keys)
    requires forall v :: v in keys && acc(v).Some? ==> acc(v).value <= sigs
    requires Run(acc, a, sigs).Some? && Run(acc, b, sigs).Some?
    ensures Run(acc, a, sigs) == Run(acc, b, sigs)
  {
    hide Loop, Run, Accepts;
    RunRecords(acc, a, sigs, keys);
    RunRecords(acc, b, sigs, keys);
    var m, n := Run(acc, a, sigs).value, Run(acc, b, sigs).value;
    forall s | s in sigs ensures m[s] == n[s] {
      assert Accepts(acc, m[s], s) && Accepts(acc, n[s], s);
    }
    assert m == n;
  }

  /** Without errors and without shared signatures, neither verdict nor record depends on the order. */
  lemma RunIndependent<V(!new)>(acc: Acceptance<V>, a: seq<V>, b: seq<V>, keys: set<V>, sigs: set<bytes>)
    requires IsOrderOf(a, keys) && IsOrderOf(b, keys) && Disjoint(acc, keys)
    requires forall v :: v in keys ==> acc(v).Some? && acc(v).value <= sigs
    ensures Run(acc, a, sigs) == Run(acc, b, sigs)
  {
    hide Run;
    RunWithoutErrors(acc, a, keys, sigs);
    RunWithoutErrors(acc, b, keys, sigs);
    if Run(acc, a, sigs).Some? {
      SameRecord(acc, a, b, keys, sigs);
    }
  }

  // ----- who can be recorded for a signature

  /** The verifiers without an error that do not accept both s and t. */
  ghost function NotBoth<V(!new)>(acc: Acceptance<V>, keys: set<V>, s: bytes, t: bytes): set<V> {
    set v | v in keys && acc(v).Some? && !(s in acc(v).value && t in acc(v).value)
  }

  /** All signatures are covered without the other verifiers that accept both s and t. */
  ghost predicate LeavesRoomFor<V(!new)>(acc: Acceptance<V>, keys: set<V>, sigs: set<bytes>, v: V, s: bytes, t: bytes) {
    t in sigs && Covered(acc, {v} + NotBoth(acc, keys, s, t), sigs)
  }

  /**
   In terms of the accepted sets alone: v accepts s, and some t leaves room for it. A loop that has
   taken s already goes on to v as long as t is open, and afterwards needs no other acceptor of s.
   */
  ghost predicate CanRecord<V(!new)>(acc: Acceptance<V>, keys: set<V>, sigs: set<bytes>, v: V, s: bytes) {
    v in keys && Accepts(acc, v, s) && exists t :: LeavesRoomFor(acc, keys, sigs, v, s, t)
  }

  lemma {:induction false} LoopKeepsRecord<V(!new)>(acc: Acceptance<V>, order: seq<V>, p: Progress<V>, s: bytes)
    requires Loop(acc, order, p).Some? && s in p.found && forall v :: v in order ==> !Accepts(acc, v, s)
    ensures s in Loop(acc, order, p).value.found && Loop(acc, order, p).value.found[s] == p.found[s]
    decreases |order|
  {
    if order != [] && p.left != {} {
      assert order[0] in order;
      LoopKeepsRecord(acc, order[1..], Progress(p.left - acc(order[0]).value, Record(p.found, acc(order[0]).value, order[0])), s);
    }
  }

  lemma LoopVisits<V(!new)>(acc: Acceptance<V>, v: V, rest: seq<V>, p: Progress<V>)
    requires acc(v).Some? && p.left != {}
    ensures Loop(acc, [v] + rest, p) == Loop(acc, rest, Progress(p.left - acc(v).value, Record(p.found, acc(v).value, v)))
  {
    assert ([v] + rest)[0] == v && ([v] + rest)[1..] == rest;
  }

  lemma OrderOf<V(!new)>(x: set<V>, v: V, y: set<V>, keys: set<V>) returns (first: seq<V>, next: seq<V>, rest: seq<V>)
    requires x + {v} + y <= keys && v !in x && v !in y && x !! y
    ensures IsOrderOf(first, x) && IsOrderOf(next, y) && IsOrderOf(first + ([v] + (next + rest)), keys)
  {
    first := OrderExists(x);
    next := OrderExists(y);
    var others := keys - x - {v} - y;
    rest := OrderExists(others);
    OrderConcat(next, rest, y, others);
    OrderConcat([v], next + rest, {v}, y + others);
    OrderConcat(first, [v] + (next + rest), x, {v} + (y + others));
    assert x + ({v} + (y + others)) == keys;
  }

  /** The order that records v for s: first the acceptors of s that leave t open, then v, then those that do not accept s. */
  lemma RecordingOrder<V(!new)>(acc: Acceptance<V>, keys: set<V>, sigs: set<bytes>, v: V, s: bytes, t: bytes) returns (order: seq<V>)
    requires v in keys && Accepts(acc, v, s) && LeavesRoomFor(acc, keys, sigs, v, s, t)
    ensures IsOrderOf(order, keys) && Run(acc, order, sigs).Some?
    ensures s in Run(acc, order, sigs).value && Run(acc, order, sigs).value[s] == v
  {
    hide Loop;
    var x := set w | w in keys && w != v && Accepts(acc, w, s) && !Accepts(acc, w, t);
    var y := set w | w in keys && acc(w).Some? && !Accepts(acc, w, s);
    var first, next, rest := OrderOf(x, v, y, keys);
    order := first + ([v] + (next + rest));
    var p := Progress(sigs, map[]);
    LoopLeaves(acc, first, p);
    LoopOnPrefix(acc, first, [v] + (next + rest), p);
    var p1 := Loop(acc, first, p).value;
    assert t in p1.left;
    LoopVisits(acc, v, next + rest, p1);
    var p2 := Progress(p1.left - acc(v).value, Record(p1.found, acc(v).value, v));
    LoopLeaves(acc, next, p2);
    LoopOnPrefix(acc, next, rest, p2);
    LoopKeepsRecord(acc, next, p2, s);
    var p3 := Loop(acc, next, p2).value;
    forall u | u in sigs ensures u !in p3.left {
      var w :| w in {v} + NotBoth(acc, keys, s, t) && Accepts(acc, w, u);
      assert w in x || w == v || w in y;
    }
    assert p3.left <= sigs;
    assert p3.left == {};
    LoopStops(acc, rest, p3);
  }

  ghost predicate AcceptedFrom<V(!new)>(acc: Acceptance<V>, order: seq<V>, lo: int, hi: int, s: bytes) {
    exists j :: lo <= j < hi && 0 <= j < |order| && Accepts(acc, order[j], s)
  }

  /** How far a loop came, and the last verifier on the way that accepts s, or -1. */
  lemma {:induction false} LoopTrace<V(!new)>(acc: Acceptance<V>, order: seq<V>, p: Progress<V>, s: bytes) returns (n: nat, i: int)
    requires Loop(acc, order, p).Some?
    ensures n <= |order| && forall j :: 0 <= j < n ==> acc(order[j]).Some?
    ensures forall t :: t in Loop(acc, order, p).value.left <==> t in p.left && !AcceptedFrom(acc, order, 0, n, t)
    ensures -1 <= i < n && !AcceptedFrom(acc, order, i + 1, n, s)
    ensures var found := Loop(acc, order, p).value.found;
            if i < 0 then (s in found <==> s in p.found) && (s in found ==> found[s] == p.found[s])
            else s in found && found[s] == order[i] && Accepts(acc, order[i], s)
                 && exists t :: t in p.left && !AcceptedFrom(acc, order, 0, i, t)
    decreases |order|
  {
    if order == [] || p.left == {} {
      n, i := 0, -1;
    } else {
      var v, tail := order[0], order[1..];
      var q := Progress(p.left - acc(v).value, Record(p.found, acc(v).value, v));
      var n', i' := LoopTrace(acc, tail, q, s);
      n := n' + 1;
      forall lo: nat, t ensures AcceptedFrom(acc, order, lo + 1, n, t) <==> AcceptedFrom(acc, tail, lo, n', t) {
        ShiftAccepted(acc, order, lo, n', t);
      }
      forall t ensures AcceptedFrom(acc, order, 0, n, t) <==> Accepts(acc, v, t) || AcceptedFrom(acc, tail, 0, n', t) {
        ShiftAccepted(acc, order, 0, n', t);
        HeadAccepted(acc, order, n, t);
      }
      assert forall j :: 0 <= j < n ==> acc(order[j]).Some? by {
        assert forall j :: 1 <= j < n ==> order[j] == tail[j - 1];
      }
      if i' >= 0 {
        i := i' + 1;
        var t :| t in q.left && !AcceptedFrom(acc, tail, 0, i', t);
        ShiftAccepted(acc, order, 0, i', t);
        HeadAccepted(acc, order, i, t);
      } else if Accepts(acc, v, s) {
        i := 0;
        var t :| t in p.left;
        assert !AcceptedFrom(acc, order, 0, 0, t);
      } else {
        i := -1;
      }
    }
  }

  lemma ShiftAccepted<V(!new)>(acc: Acceptance<V>, order: seq<V>, lo: nat, hi: int, t: bytes)
    requires order != []
    ensures AcceptedFrom(acc, order, lo + 1, hi + 1, t) <==> AcceptedFrom(acc, order[1..], lo, hi, t)
  {
    hide Accepts;
    if AcceptedFrom(acc, order, lo + 1, hi + 1, t) {
      var j :| lo + 1 <= j < hi + 1 && 0 <= j < |order| && Accepts(acc, order[j], t);
      assert order[1..][j - 1] == order[j];
    }
    if AcceptedFrom(acc, order[1..], lo, hi, t) {
      var j :| lo <= j < hi && 0 <= j < |order[1..]| && Accepts(acc, order[1..][j], t);
      assert order[j + 1] == order[1..][j];
    }
  }

  lemma HeadAccepted<V(!new)>(acc: Acceptance<V>, order: seq<V>, n: int, t: bytes)
    requires order != [] && n > 0
    ensures AcceptedFrom(acc, order, 0, n, t) <==> Accepts(acc, order[0], t) || AcceptedFrom(acc, order, 1, n, t)
  {
    hide Accepts;
  }

  /** Whoever is recorded for s in a successful run can be, by the accepted sets. */
  lemma RecordedCan<V(!new)>(acc: Acceptance<V>, order: seq<V>, keys: set<V>, sigs: set<bytes>, s: bytes)
    requires IsOrderOf(order, keys) && Run(acc, order, sigs).Some? && s in Run(acc, order, sigs).value
    ensures CanRecord(acc, keys, sigs, Run(acc, order, sigs).value[s], s)
  {
    hide Loop;
    var p := Progress(sigs, map[]);
    var n, i := LoopTrace(acc, order, p, s);
    var v := order[i];
    var t :| t in sigs && !AcceptedFrom(acc, order, 0, i, t);
    var some := {v} + NotBoth(acc, keys, s, t);
    forall u | u in sigs ensures exists w :: w in some && Accepts(acc, w, u) {
      assert u !in Loop(acc, order, p).value.left;
      var j :| 0 <= j < n && Accepts(acc, order[j], u);
      var w := order[j];
      assert w in order && (j < i ==> !Accepts(acc, w, t)) && (j > i ==> !Accepts(acc, w, s));
      assert w in some;
    }
    assert v in order && LeavesRoomFor(acc, keys, sigs, v, s, t);
  }

  ghost predicate RecordIndependent<V(!new)>(acc: Acceptance<V>, keys: set<V>, sigs: set<bytes>) {
    forall a, b :: IsOrderOf(a, keys) && IsOrderOf(b, keys) && Run(acc, a, sigs).Some? && Run(acc, b, sigs).Some? ==>
      Run(acc, a, sigs) == Run(acc, b, sigs)
  }

  /** For each signature, the accepted sets leave one verifier that can be recorded. */
  ghost predicate OneRecorder<V(!new)>(acc: Acceptance<V>, keys: set<V>, sigs: set<bytes>) {
    forall v, w, s :: CanRecord(acc, keys, sigs, v, s) && CanRecord(acc, keys, sigs, w, s) ==> v == w
  }

  /** All successful orders record the same map exactly when the accepted sets leave one recorder per signature. */
  lemma RecordIndependence<V(!new)>(acc: Acceptance<V>, keys: set<V>, sigs: set<bytes>)
    requires forall v :: v in keys && acc(v).Some? ==> acc(v).value <= sigs
    ensures RecordIndependent(acc, keys, sigs) <==> OneRecorder(acc, keys, sigs)
  {
    hide Run, CanRecord;
    if OneRecorder(acc, keys, sigs) {
      forall a, b | IsOrderOf(a, keys) && IsOrderOf(b, keys) && Run(acc, a, sigs).Some? && Run(acc, b, sigs).Some?
        ensures Run(acc, a, sigs) == Run(acc, b, sigs)
      {
        RunRecords(acc, a, sigs, keys);
        RunRecords(acc, b, sigs, keys);
        var m, n := Run(acc, a, sigs).value, Run(acc, b, sigs).value;
        forall s | s in sigs ensures m[s] == n[s] {
          RecordedCan(acc, a, keys, sigs, s);
          RecordedCan(acc, b, keys, sigs, s);
        }
        assert m == n;
      }
    }
    if RecordIndependent(acc, keys, sigs) {
      forall v, w, s | CanRecord(acc, keys, sigs, v, s) && CanRecord(acc, keys, sigs, w, s) ensures v == w {
        var a := CanBeRecorded(acc, keys, sigs, v, s);
        var b := CanBeRecorded(acc, keys, sigs, w, s);
      }
    }
  }

  lemma CanBeRecorded<V(!new)>(acc: Acceptance<V>, keys: set<V>, sigs: set<bytes>, v: V, s: bytes) returns (order: seq<V>)
    requires CanRecord(acc, keys, sigs, v, s)
    ensures IsOrderOf(order, keys) && Run(acc, order, sigs).Some?
    ensures s in Run(acc, order, sigs).value && Run(acc, order, sigs).value[s] == v
  {
    hide Run, LeavesRoomFor;
    var t :| LeavesRoomFor(acc, keys, sigs, v, s, t);
    order := RecordingOrder(acc, keys, sigs, v, s, t);
  }

  /**
   Verdict and record together: they are the same for all orders exactly when some signature is
   accepted by nobody, or no verifier is an error and each signature has one possible recorder.
   */
  lemma RunIndependence<V(!new)>(acc: Acceptance<V>, keys: set<V>, sigs: set<bytes>)
    requires sigs != {} && forall v :: v in keys && acc(v).Some? ==> acc(v).value <= sigs
    ensures (forall a, b :: IsOrderOf(a, keys) && IsOrderOf(b, keys) ==> Run(acc, a, sigs) == Run(acc, b, sigs))
       <==> !Covered(acc, keys, sigs) || ((forall v :: v in keys ==> acc(v).Some?) && OneRecorder(acc, keys, sigs))
  {
    hide Run, Covered, OneRecorder;
    VerdictIndependence(acc, keys, sigs);
    RecordIndependence(acc, keys, sigs);
    if !Covered(acc, keys, sigs) {
      forall a, b | IsOrderOf(a, keys) && IsOrderOf(b, keys) ensures Run(acc, a, sigs) == Run(acc, b, sigs) {
        UncoveredFails(acc, a, keys, sigs);
        UncoveredFails(acc, b, keys, sigs);
      }
    } else if (forall v :: v in keys ==> acc(v).Some?) && OneRecorder(acc, keys, sigs) {
      forall a, b | IsOrderOf(a, keys) && IsOrderOf(b, keys) ensures Run(acc, a, sigs) == Run(acc, b, sigs) {
        RunWithoutErrors(acc, a, keys, sigs);
        RunWithoutErrors(acc, b, keys, sigs);
      }
    }
  }

  /** The acceptors of a signature leave some other signature to be covered, unless there is no other. */
  ghost predicate LeaveOne<V(!new)>(acc: Acceptance<V>, keys: set<V>, sigs: set<bytes>, s: bytes) {
    sigs == {s} || exists t :: t in sigs && forall w :: w in keys && Accepts(acc, w, s) ==> !Accepts(acc, w, t)
  }

  /** Then every acceptor of s can be recorded for it. */
  lemma LeaveOneCanRecord<V(!new)>(acc: Acceptance<V>, keys: set<V>, sigs: set<bytes>, v: V, s: bytes)
    requires Covered(acc, keys, sigs) && LeaveOne(acc, keys, sigs, s) && v in keys && Accepts(acc, v, s)
    ensures CanRecord(acc, keys, sigs, v, s)
  {
    hide Covered;
    if sigs == {s} {
      OnlyCanRecord(acc, keys, v, s);
    } else {
      var t :| t in sigs && forall w :: w in keys && Accepts(acc, w, s) ==> !Accepts(acc, w, t);
      CoveredByGood(acc, keys, {v} + NotBoth(acc, keys, s, t), sigs);
      assert LeavesRoomFor(acc, keys, sigs, v, s, t);
    }
  }

  lemma OnlyCanRecord<V(!new)>(acc: Acceptance<V>, keys: set<V>, v: V, s: bytes)
    requires v in keys && Accepts(acc, v, s)
    ensures CanRecord(acc, keys, {s}, v, s)
  {
    assert LeavesRoomFor(acc, keys, {s}, v, s, s);
  }

  lemma CoveredByGood<V(!new)>(acc: Acceptance<V>, keys: set<V>, good: set<V>, sigs: set<bytes>)
    requires Covered(acc, keys, sigs) && forall v :: v in keys && acc(v).Some? ==> v in good
    ensures Covered(acc, good, sigs)
  {
    forall s | s in sigs ensures exists v :: v in good && Accepts(acc, v, s) {
      var v :| v in keys && Accepts(acc, v, s);
    }
  }

  lemma NotCovered<V(!new)>(acc: Acceptance<V>, keys: set<V>, sigs: set<bytes>, s: bytes)
    requires s in sigs && forall v :: v in keys ==> !Accepts(acc, v, s)
    ensures !Covered(acc, keys, sigs)
  {
  }

  /**
   When no signature's acceptors cover everything by themselves, the record is the same for all
   orders exactly when no two verifiers accept the same signature.
   */
  lemma SharedSignatureDecides<V(!new)>(acc: Acceptance<V>, keys: set<V>, sigs: set<bytes>)
    requires forall v :: v in keys && acc(v).Some? ==> acc(v).value <= sigs
    requires Covered(acc, keys, sigs) && forall s :: s in sigs ==> LeaveOne(acc, keys, sigs, s)
    ensures RecordIndependent(acc, keys, sigs) <==> Disjoint(acc, keys)
  {
    hide Run, Covered, CanRecord, RecordIndependent, LeaveOne;
    RecordIndependence(acc, keys, sigs);
    if OneRecorder(acc, keys, sigs) {
      forall v, w, s | v in keys && w in keys && Accepts(acc, v, s) && Accepts(acc, w, s) ensures v == w {
        LeaveOneCanRecord(acc, keys, sigs, v, s);
        LeaveOneCanRecord(acc, keys, sigs, w, s);
      }
    }
    if Disjoint(acc, keys) {
      forall v, w, s | CanRecord(acc, keys, sigs, v, s) && CanRecord(acc, keys, sigs, w, s) ensures v == w {
        CanRecordAccepts(acc, keys, sigs, v, s);
        CanRecordAccepts(acc, keys, sigs, w, s);
      }
    }
  }

  /** Every verifier without an error accepts one signature, of those to be covered. */
  ghost predicate AcceptOne<V(!new)>(acc: Acceptance<V>, keys: set<V>, sigs: set<bytes>) {
    forall v :: v in keys && acc(v).Some? ==> exists s :: s in sigs && acc(v).value == {s}
  }

  /** In particular when each verifier accepts one signature. */
  lemma SingleRecordIndependence<V(!new)>(acc: Acceptance<V>, keys: set<V>, sigs: set<bytes>)
    requires Covered(acc, keys, sigs) && AcceptOne(acc, keys, sigs)
    ensures RecordIndependent(acc, keys, sigs) <==> Disjoint(acc, keys)
  {
    hide Run, Covered, RecordIndependent, Disjoint;
    forall s | s in sigs ensures LeaveOne(acc, keys, sigs, s) {
      if t :| t in sigs && t != s {
        assert forall w :: w in keys && Accepts(acc, w, s) ==> !Accepts(acc, w, t);
      } else {
        assert sigs == {s};
      }
    }
    SharedSignatureDecides(acc, keys, sigs);
  }

  lemma CanRecordAccepts<V(!new)>(acc: Acceptance<V>, keys: set<V>, sigs: set<bytes>, v: V, s: bytes)
    requires CanRecord(acc, keys, sigs, v, s)
    ensures v in keys && Accepts(acc, v, s)
  {
  }

  /** An accepted signature that is shared need not matter: here w alone covers both, and is recorded for both in either order. */
  lemma SharedSignatureNeedNotMatter<V(!new)>(acc: Acceptance<V>, v: V, w: V, s: bytes, t: bytes)
    requires v != w && s != t && acc(v) == Some({s}) && acc(w) == Some({s, t})
    ensures !Disjoint(acc, {v, w}) && RecordIndependent(acc, {v, w}, {s, t})
  {
    hide RecordIndependent, Run;
    assert Accepts(acc, v, s) && Accepts(acc, w, s);
    RecordIndependence(acc, {v, w}, {s, t});
    forall u | u in {s, t} ensures !LeavesRoomFor(acc, {v, w}, {s, t}, v, s, u) {
      NotCovered(acc, {v} + NotBoth(acc, {v, w}, s, u), {s, t}, t);
    }
  }

  /** A run looks at nothing but what the verifiers in its order accept. */
  lemma {:induction false} LoopFrame<V(!new)>(acc: Acceptance<V>, acc': Acceptance<V>, order: seq<V>, p: Progress<V>)
    requires forall v :: v in order ==> acc(v) == acc'(v)
    ensures Loop(acc, order, p) == Loop(acc', order, p)
    decreases |order|
  {
    if order != [] && p.left != {} {
      assert order[0] in order;
      if acc(order[0]).Some? {
        LoopFrame(acc, acc', order[1..], Progress(p.left - acc(order[0]).value, Record(p.found, acc(order[0]).value, order[0])));
      }
    }
  }

  /**
   The condition matters: when two verifiers accept one and the same signature, the first one
   visited is recorded and the loop stops, so the two orders record different verifiers.
   */
  lemma SharedSignatureMatters<V(!new)>(acc: Acceptance<V>, v: V, w: V, s: bytes)
    requires v != w && acc(v) == Some({s}) && acc(w) == Some({s})
    ensures IsOrderOf([v, w], {v, w}) && IsOrderOf([w, v], {v, w})
    ensures Run(acc, [v, w], {s}) == Some(map[s := v]) && Run(acc, [w, v], {s}) == Some(map[s := w])
    ensures Run(acc, [v, w], {s}) != Run(acc, [w, v], {s})
  {
    SingleTakesAll(acc, v, w, s);
    SingleTakesAll(acc, w, v, s);
    assert map[s := v][s] != map[s := w][s];
  }

  lemma SingleTakesAll<V(!new)>(acc: Acceptance<V>, v: V, w: V, s: bytes)
    requires acc(v) == Some({s})
    ensures Run(acc, [v, w], {s}) == Some(map[s := v])
  {
    var q := Progress({s} - {s}, Record(map[], {s}, v));
    assert q.left == {} && q.found == map[s := v];
    LoopStops(acc, [v, w][1..], q);
  }
}
