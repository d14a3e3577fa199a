/** Canonical orders. `BTreeMap`, `BTreeSet` and `sort` all yield ascending sequences; everything they order
    here is compared by a key of integers, lexicographically, which is what Rust's derived `Ord` does. */
module Ordering {

  type Key = seq<int>

  predicate Less(a: Key, b: Key) {
    b != [] && (a == [] || a[0] < b[0] || (a[0] == b[0] && Less(a[1..], b[1..])))
  }

  lemma LessIrreflexive(a: Key)
    ensures !Less(a, a)
  {
  }

  lemma LessTransitive(a: Key, b: Key, c: Key)
    requires Less(a, b) && Less(b, c)
    ensures Less(a, c)
  {
  }

  lemma LessTotal(a: Key, b: Key)
    ensures a == b || Less(a, b) || Less(b, a)
  {
    if a != [] && b != [] && a[0] == b[0] {
      LessTotal(a[1..], b[1..]);
      if a[1..] == b[1..] {
        assert a == [a[0]] + a[1..] && b == [b[0]] + b[1..];
      }
    }
  }

  /** Lexicographic comparison of concatenations whose first parts have one length. */
  lemma {:induction false} LessAppend(a: Key, b: Key, x: Key, y: Key)
    requires |a| == |b|
    ensures Less(a + x, b + y) <==> Less(a, b) || (a == b && Less(x, y))
  {
    if a == [] {
      assert a + x == x && b + y == y;
    } else {
      LessAppend(a[1..], b[1..], x, y);
      assert (a + x)[1..] == a[1..] + x && (b + y)[1..] == b[1..] + y;
      if a[0] == b[0] {
        assert a == b <==> a[1..] == b[1..] by {
          assert a == [a[0]] + a[1..] && b == [b[0]] + b[1..];
        }
      }
    }
  }

  /** Strictly ascending: the order of a `BTreeMap`'s keys or a `BTreeSet`'s elements. */
  predicate Ascending(s: seq<Key>) {
    forall i, j :: 0 <= i < j < |s| ==> Less(s[i], s[j])
  }

  /** Ascending with repetitions: the order of a sorted `Vec`. */
  predicate Ordered(s: seq<Key>) {
    forall i, j :: 0 <= i < j < |s| ==> !Less(s[j], s[i])
  }

  /** A strictly ascending sequence is determined by its elements. */
  lemma {:induction false} AscendingUnique(a: seq<Key>, b: seq<Key>)
    requires Ascending(a) && Ascending(b)
    requires forall x :: x in a <==> x in b
    ensures a == b
    decreases |a|
  {
    assert a != [] ==> a[0] in b;
    assert b != [] ==> b[0] in a;
    if a != [] {
      FirstIsLeast(a, b[0]);
      FirstIsLeast(b, a[0]);
      if a[0] != b[0] {
        LessTransitive(a[0], b[0], a[0]);
        LessIrreflexive(a[0]);
      }
      TailElements(a);
      TailElements(b);
      AscendingUnique(a[1..], b[1..]);
      assert a == [a[0]] + a[1..] && b == [b[0]] + b[1..];
    }
  }

  lemma FirstIsLeast(a: seq<Key>, x: Key)
    requires Ascending(a) && x in a
    ensures a[0] == x || Less(a[0], x)
  {
    var i :| 0 <= i < |a| && a[i] == x;
  }

  lemma TailElements(a: seq<Key>)
    requires Ascending(a) && a != []
    ensures Ascending(a[1..]) && forall x :: x in a[1..] <==> x in a && x != a[0]
  {
    forall x
      ensures x in a[1..] <==> x in a && x != a[0]
    {
      if x in a[1..] {
        var i :| 0 <= i < |a[1..]| && a[1..][i] == x;
        assert a[i + 1] == x;
        LessIrreflexive(x);
      }
      if x in a && x != a[0] {
        var i :| 0 <= i < |a| && a[i] == x;
        assert a[1..][i - 1] == x;
      }
    }
  }

  /** Where a key belongs in an ascending sequence. */
  function Position(s: seq<Key>, k: Key): (p: nat)
    ensures p <= |s|
    ensures p < |s| ==> !Less(s[p], k)
    ensures forall i :: 0 <= i < p ==> Less(s[i], k)
  {
    if s == [] || !Less(s[0], k) then 0 else 1 + Position(s[1..], k)
  }

  lemma InsertAscending(s: seq<Key>, k: Key)
    requires Ascending(s)
    ensures k in s <==> Position(s, k) < |s| && s[Position(s, k)] == k
    ensures k !in s ==> Ascending(s[..Position(s, k)] + [k] + s[Position(s, k)..])
  {
    hide Less;
    var p := Position(s, k);
    if k in s {
      var i :| 0 <= i < |s| && s[i] == k;
      LessIrreflexive(k);
    } else {
      forall i | p <= i < |s|
        ensures Less(k, s[i])
      {
        LessTotal(k, s[p]);
        if i > p {
          LessTransitive(k, s[p], s[i]);
        }
      }
    }
  }

  lemma InsertOrdered(s: seq<Key>, k: Key)
    requires Ordered(s)
    ensures Ordered(s[..Position(s, k)] + [k] + s[Position(s, k)..])
  {
    hide Less;
    var p := Position(s, k);
    forall i | 0 <= i < p
      ensures !Less(k, s[i])
    {
      if Less(k, s[i]) {
        LessTransitive(k, s[i], k);
        LessIrreflexive(k);
      }
    }
    forall i | p <= i < |s|
      ensures !Less(s[i], k)
    {
      if Less(s[i], k) && i > p {
        LessTotal(s[p], s[i]);
        if Less(s[p], s[i]) {
          LessTransitive(s[p], s[i], k);
        }
      }
    }
  }
}
