/** Byte strings in the order of Go's string comparison, and sorting them. */
module ByteOrder {
  import opened Bytes

  /** After a common prefix, a ends and b goes on, or the next byte of a is the smaller one. */
  ghost predicate PrecedesAt(a: bytes, b: bytes, i: nat) {
    && i <= |a| && i < |b| && a[..i] == b[..i]
    && (i < |a| ==> a[i] < b[i])
  }

  ghost predicate Precedes(a: bytes, b: bytes) {
    exists i: nat :: PrecedesAt(a, b, i)
  }

  /** The comparison, byte by byte from the left, decides exactly that order. */
  predicate Less(a: bytes, b: bytes)
    ensures Less(a, b) <==> Precedes(a, b)
  {
    var r := b != [] && (a == [] || a[0] < b[0] || (a[0] == b[0] && Less(a[1..], b[1..])));
    assert r <==> Precedes(a, b) by { PrecedesStep(a, b); }
    r
  }

  lemma PrecedesStep(a: bytes, b: bytes)
    ensures Precedes(a, b) <==> b != [] && (a == [] || a[0] < b[0] || (a[0] == b[0] && Precedes(a[1..], b[1..])))
  {
    if i: nat :| PrecedesAt(a, b, i) {
      if i > 0 {
        assert a[0] == a[..i][0] == b[..i][0] == b[0];
        assert a[1..][..i - 1] == a[..i][1..] && b[1..][..i - 1] == b[..i][1..];
        assert PrecedesAt(a[1..], b[1..], i - 1);
      }
    }
    if b != [] && (a == [] || a[0] < b[0]) {
      assert PrecedesAt(a, b, 0);
    }
    if a != [] && b != [] && a[0] == b[0] && Precedes(a[1..], b[1..]) {
      var i: nat :| PrecedesAt(a[1..], b[1..], i);
      assert a[..i + 1] == [a[0]] + a[1..][..i] && b[..i + 1] == [b[0]] + b[1..][..i];
      assert PrecedesAt(a, b, i + 1);
    }
  }

  lemma {:induction false} PrecedesTotal(a: bytes, b: bytes)
    ensures Precedes(a, b) || Precedes(b, a) || a == b
    ensures !(Precedes(a, b) && Precedes(b, a)) && !Precedes(a, a)
  {
    hide Precedes;
    PrecedesStep(a, b);
    PrecedesStep(b, a);
    PrecedesStep(a, a);
    if a != [] && b != [] {
      PrecedesTotal(a[1..], b[1..]);
      if a[0] == b[0] && a[1..] == b[1..] {
        assert a == [a[0]] + a[1..] && b == [b[0]] + b[1..];
      }
    }
    if a != [] {
      PrecedesTotal(a[1..], a[1..]);
    }
  }

  lemma {:induction false} PrecedesTransitive(a: bytes, b: bytes, c: bytes)
    requires Precedes(a, b) && Precedes(b, c)
    ensures Precedes(a, c)
  {
    hide Precedes;
    PrecedesStep(a, b);
    PrecedesStep(b, c);
    PrecedesStep(a, c);
    if a != [] && a[0] == b[0] == c[0] {
      PrecedesTransitive(a[1..], b[1..], c[1..]);
    }
  }

  ghost predicate Ascending(s: seq<bytes>) {
    forall i, j :: 0 <= i < j < |s| ==> Precedes(s[i], s[j])
  }

  ghost predicate SortedFrom(s: seq<bytes>, keys: set<bytes>) {
    Ascending(s) && forall x :: x in s <==> x in keys
  }

  /** The place of x: before it, the smaller strings. */
  function Place(s: seq<bytes>, x: bytes): (n: nat)
    ensures n <= |s|
    ensures forall i :: 0 <= i < n ==> Precedes(s[i], x)
    ensures n < |s| ==> !Precedes(s[n], x)
  {
    if s == [] || !Less(s[0], x) then 0 else 1 + Place(s[1..], x)
  }

  lemma InsertAscends(s: seq<bytes>, x: bytes, n: nat)
    requires Ascending(s) && n <= |s| && x !in s
    requires forall i :: 0 <= i < n ==> Precedes(s[i], x)
    requires n < |s| ==> !Precedes(s[n], x)
    ensures Ascending(s[..n] + [x] + s[n..])
  {
    hide Precedes;
    var t := s[..n] + [x] + s[n..];
    forall i | n <= i < |s| ensures Precedes(x, s[i]) {
      PrecedesTotal(x, s[n]);
      if n < i {
        PrecedesTransitive(x, s[n], s[i]);
      }
    }
    forall i, j | 0 <= i < j < |t| ensures Precedes(t[i], t[j]) {
      assert i < n ==> t[i] == s[i];
      assert i > n ==> t[i] == s[i - 1];
      assert j < n ==> t[j] == s[j];
      assert j > n ==> t[j] == s[j - 1];
    }
  }

  /** Sorts the keys of a map, which are distinct. */
  method Sort(keys: seq<bytes>) returns (s: seq<bytes>)
    requires NoDuplicates(keys)
    ensures SortedFrom(s, set x | x in keys)
  {
    hide Precedes;
    s := [];
    for i := 0 to |keys|
      invariant Ascending(s)
      invariant forall x :: x in s <==> x in keys[..i]
    {
      assert keys[i] !in keys[..i];
      var n := Place(s, keys[i]);
      InsertAscends(s, keys[i], n);
      assert s == s[..n] + s[n..];
      assert keys[..i + 1] == keys[..i] + [keys[i]];
      s := s[..n] + [keys[i]] + s[n..];
    }
    assert keys[..|keys|] == keys;
  }

  lemma FirstIsLeast(s: seq<bytes>, keys: set<bytes>, x: bytes)
    requires SortedFrom(s, keys) && s != [] && x in keys
    ensures x == s[0] || Precedes(s[0], x)
  {
    hide Precedes;
    var i :| 0 <= i < |s| && s[i] == x;
  }

  lemma SortedEmpty(s: seq<bytes>, keys: set<bytes>)
    requires SortedFrom(s, keys)
    ensures s == [] <==> keys == {}
  {
    if s != [] {
      assert s[0] in keys;
    }
  }

  /** There is one way to sort a set. */
  lemma {:induction false} SortedUnique(s: seq<bytes>, t: seq<bytes>, keys: set<bytes>)
    requires SortedFrom(s, keys) && SortedFrom(t, keys)
    ensures s == t
    decreases |s|
  {
    hide Precedes;
    SortedEmpty(s, keys);
    SortedEmpty(t, keys);
    if s != [] {
      assert s[0] in keys && t[0] in keys;
      FirstIsLeast(s, keys, t[0]);
      FirstIsLeast(t, keys, s[0]);
      PrecedesTotal(s[0], t[0]);
      TailSorted(s, keys);
      TailSorted(t, keys);
      SortedUnique(s[1..], t[1..], keys - {s[0]});
      assert s == [s[0]] + s[1..] && t == [t[0]] + t[1..];
    }
  }

  lemma TailSorted(s: seq<bytes>, keys: set<bytes>)
    requires SortedFrom(s, keys) && s != []
    ensures SortedFrom(s[1..], keys - {s[0]})
  {
    hide Precedes;
    forall x | x in s[1..] ensures x in keys && x != s[0] {
      var i :| 0 <= i < |s[1..]| && s[1..][i] == x;
      assert Precedes(s[0], s[i + 1]);
      PrecedesTotal(x, x);
    }
  }

  lemma {:induction false} SortExists(keys: set<bytes>) returns (s: seq<bytes>)
    ensures SortedFrom(s, keys)
  {
    hide Precedes;
    if keys == {} {
      s := [];
    } else {
      var x :| x in keys;
      var t := SortExists(keys - {x});
      var n := Place(t, x);
      assert x !in t;
      InsertAscends(t, x, n);
      assert t == t[..n] + t[n..];
      s := t[..n] + [x] + t[n..];
      assert forall y :: y in s <==> y in t || y == x;
    }
  }

  ghost function Sorted(keys: set<bytes>): (s: seq<bytes>)
    ensures SortedFrom(s, keys)
  {
    assert exists s :: SortedFrom(s, keys) by { var s := SortExists(keys); }
    var s :| SortedFrom(s, keys);
    s
  }
}
