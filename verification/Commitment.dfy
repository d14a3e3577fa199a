/** The input commitment's pre-image: the sorted candidate tuples and their SCALE encoding. */
module Commitment {
  import opened Prelude
  import opened Ordering
  import opened Vault

  // ---------- the sorted tuples ----------

  /** The derived order of `(beacon, created, spent, coins)`, with `None` before every `Some`. */
  function CandidateKey(c: Candidate): Key {
    c.beacon + [c.created, if c.spent.None? then 0 else c.spent.value + 1, c.coins]
  }

  function CandidateKeys(cs: seq<Candidate>): (keys: seq<Key>)
    ensures |keys| == |cs| && forall i :: 0 <= i < |cs| ==> keys[i] == CandidateKey(cs[i])
  {
    seq(|cs|, i requires 0 <= i < |cs| => CandidateKey(cs[i]))
  }

  lemma CandidateKeyInjective(a: Candidate, b: Candidate)
    requires CandidateKey(a) == CandidateKey(b)
    ensures a == b
  {
    var x, y := CandidateKey(a), CandidateKey(b);
    assert x[..32] == a.beacon && y[..32] == b.beacon;
    assert x[32..] == [a.created, if a.spent.None? then 0 else a.spent.value + 1, a.coins];
    assert y[32..] == [b.created, if b.spent.None? then 0 else b.spent.value + 1, b.coins];
    assert x[32..][0] == y[32..][0] && x[32..][1] == y[32..][1] && x[32..][2] == y[32..][2];
  }

  /** The key order is the field-by-field order. */
  lemma CandidateOrder(a: Candidate, b: Candidate)
    ensures Less(CandidateKey(a), CandidateKey(b)) <==>
            Less(a.beacon, b.beacon) || (a.beacon == b.beacon &&
              (a.created < b.created || (a.created == b.created &&
                ((a.spent.None? && b.spent.Some?)
                 || (a.spent.Some? && b.spent.Some? && a.spent.value < b.spent.value)
                 || (a.spent == b.spent && a.coins < b.coins)))))
  {
    var x := [a.created, if a.spent.None? then 0 else a.spent.value + 1, a.coins];
    var y := [b.created, if b.spent.None? then 0 else b.spent.value + 1, b.coins];
    LessAppend(a.beacon, b.beacon, x, y);
    var x1, y1 := x[1..], y[1..];
    var x2, y2 := x1[1..], y1[1..];
    assert Less(x2, y2) <==> x[2] < y[2];
    assert Less(x1, y1) <==> x[1] < y[1] || (x[1] == y[1] && Less(x2, y2));
    assert Less(x, y) <==> x[0] < y[0] || (x[0] == y[0] && Less(x1, y1));
  }

  ghost predicate SortedCandidates(out: seq<Candidate>, cs: seq<Candidate>) {
    Ordered(CandidateKeys(out)) && multiset(out) == multiset(cs)
  }

  lemma SortedHead(a: seq<Candidate>, b: seq<Candidate>)
    requires Ordered(CandidateKeys(a)) && Ordered(CandidateKeys(b)) && multiset(a) == multiset(b) && a != []
    ensures b != [] && a[0] == b[0]
  {
    hide Less, CandidateKey;
    SameLength(a, b);
    var ka, kb := CandidateKeys(a), CandidateKeys(b);
    var i := FindIn(a, 0, b);
    var j := FindIn(b, 0, a);
    LessIrreflexive(ka[0]);
    LessTotal(ka[0], kb[0]);
    assert !Less(kb[i], kb[0]) && !Less(ka[j], ka[0]);
    CandidateKeyInjective(a[0], b[0]);
  }

  /** A sorted candidate list is determined by its multiset. */
  lemma {:induction false} SortedUnique(a: seq<Candidate>, b: seq<Candidate>)
    requires Ordered(CandidateKeys(a)) && Ordered(CandidateKeys(b)) && multiset(a) == multiset(b)
    ensures a == b
    decreases |a|
  {
    hide Ordered, CandidateKeys;
    SameLength(a, b);
    if a != [] {
      SortedHead(a, b);
      SameTail(a, b);
      OrderedTail(a);
      OrderedTail(b);
      SortedUnique(a[1..], b[1..]);
      assert a == [a[0]] + a[1..] && b == [b[0]] + b[1..];
    }
  }

  lemma OrderedTail(a: seq<Candidate>)
    requires a != [] && Ordered(CandidateKeys(a))
    ensures Ordered(CandidateKeys(a[1..]))
  {
    hide Less, CandidateKey;
    assert CandidateKeys(a[1..]) == CandidateKeys(a)[1..];
  }

  /** The sorted tuples depend on the rows' multiset alone. */
  lemma SortedCandidatesUnique(out: seq<Candidate>, out': seq<Candidate>, cs: seq<Candidate>, ds: seq<Candidate>)
    requires SortedCandidates(out, cs) && SortedCandidates(out', ds) && multiset(cs) == multiset(ds)
    ensures out == out'
  {
    SortedUnique(out, out');
  }

  ghost function AsMultiset(c: Option<Candidate>): multiset<Candidate> {
    if c.Some? then multiset{c.value} else multiset{}
  }

  lemma CandidatesRemove(rows: seq<Json>, i: nat, vault: string)
    requires i < |rows|
    ensures multiset(CandidatesOf(rows, vault))
         == multiset(CandidatesOf(Without(rows, i), vault)) + AsMultiset(CandidateOf(rows[i], vault))
  {
    hide CandidateOf, CandidatesOf;
    var a, b := rows[..i], rows[i + 1..];
    assert rows == (a + [rows[i]]) + b;
    CandidatesAppend(a + [rows[i]], b, vault);
    CandidatesAppend(a, b, vault);
    CandidatesSnoc(a, rows[i], vault);
  }

  lemma CandidatesSnoc(rows: seq<Json>, row: Json, vault: string)
    ensures multiset(CandidatesOf(rows + [row], vault))
         == multiset(CandidatesOf(rows, vault)) + AsMultiset(CandidateOf(row, vault))
  {
    hide CandidateOf;
    assert (rows + [row])[..|rows|] == rows;
  }

  lemma {:induction false} CandidatesMultiset(rows: seq<Json>, rows': seq<Json>, vault: string)
    requires multiset(rows) == multiset(rows')
    ensures multiset(CandidatesOf(rows, vault)) == multiset(CandidatesOf(rows', vault))
    decreases |rows|
  {
    hide CandidateOf, CandidatesOf;
    SameLength(rows, rows');
    if rows == [] {
      assert rows' == rows;
    } else {
      var i := FindIn(rows, 0, rows');
      WithoutSame(rows, 0, rows', i);
      CandidatesMultiset(Without(rows, 0), Without(rows', i), vault);
      CandidatesRemove(rows, 0, vault);
      CandidatesRemove(rows', i, vault);
    }
  }

  lemma {:induction false} CandidatesAppend(a: seq<Json>, b: seq<Json>, vault: string)
    ensures CandidatesOf(a + b, vault) == CandidatesOf(a, vault) + CandidatesOf(b, vault)
    decreases |b|
  {
    hide CandidateOf;
    if b == [] {
      assert a + b == a;
    } else {
      var front := b[..|b| - 1];
      CandidatesAppend(a, front, vault);
      assert (a + b)[..|a + b| - 1] == a + front && (a + b)[|a + b| - 1] == b[|b| - 1];
    }
  }

  /** `candidate_tuples`: push every candidate, then sort. */
  method CandidateTuples(rows: seq<Json>, vaultHash: string) returns (out: seq<Candidate>)
    ensures SortedCandidates(out, CandidatesOf(rows, Lower(vaultHash)))
  {
    var vault := Lower(vaultHash);
    var pushed: seq<Candidate> := [];
    for i := 0 to |rows|
      invariant pushed == CandidatesOf(rows[..i], vault)
    {
      assert rows[..i + 1][..i] == rows[..i];
      var c := RowCandidate(rows[i], vault);
      if c.Some? {
        pushed := pushed + [c.value];
      }
    }
    assert rows[..|rows|] == rows;
    out := Sort(pushed);
  }

  method Sort(cs: seq<Candidate>) returns (out: seq<Candidate>)
    ensures SortedCandidates(out, cs)
  {
    hide SortedCandidates, Position;
    out := [];
    NoneSorted(cs);
    for i := 0 to |cs|
      invariant SortedCandidates(out, cs[..i])
    {
      var p := Position(CandidateKeys(out), CandidateKey(cs[i]));
      SortedSnoc(out, cs, i);
      out := out[..p] + [cs[i]] + out[p..];
    }
    assert cs[..|cs|] == cs;
  }

  lemma NoneSorted(cs: seq<Candidate>)
    ensures SortedCandidates([], cs[..0])
  {
    assert cs[..0] == [];
  }

  lemma SortedSnoc(out: seq<Candidate>, cs: seq<Candidate>, i: nat)
    requires i < |cs| && SortedCandidates(out, cs[..i])
    ensures var p := Position(CandidateKeys(out), CandidateKey(cs[i]));
            SortedCandidates(out[..p] + [cs[i]] + out[p..], cs[..i + 1])
  {
    hide Ordered, CandidateKeys, CandidateKey, Position;
    var p := Position(CandidateKeys(out), CandidateKey(cs[i]));
    InsertCandidate(out, cs[i]);
    InsertOne(out, p, cs[i]);
    assert cs[..i + 1] == cs[..i] + [cs[i]];
  }

  lemma InsertCandidate(out: seq<Candidate>, c: Candidate)
    requires Ordered(CandidateKeys(out))
    ensures var p := Position(CandidateKeys(out), CandidateKey(c));
            Ordered(CandidateKeys(out[..p] + [c] + out[p..]))
  {
    hide Less, CandidateKey;
    var keys, k := CandidateKeys(out), CandidateKey(c);
    var p := Position(keys, k);
    InsertOrdered(keys, k);
    assert CandidateKeys(out[..p] + [c] + out[p..]) == keys[..p] + [k] + keys[p..];
  }

  // ---------- SCALE ----------

  function LittleEndian(v: nat, w: nat): (b: Bytes)
    ensures |b| == w
  {
    if w == 0 then [] else [v % 256] + LittleEndian(v / 256, w - 1)
  }

  function Scale256(w: nat): nat {
    if w == 0 then 1 else 256 * Scale256(w - 1)
  }

  lemma {:induction false} LittleEndianInjective(x: nat, y: nat, w: nat)
    requires x < Scale256(w) && y < Scale256(w) && LittleEndian(x, w) == LittleEndian(y, w)
    ensures x == y
  {
    if w > 0 {
      var a, b := LittleEndian(x, w), LittleEndian(y, w);
      assert a[0] == b[0] && a[1..] == b[1..];
      LittleEndianInjective(x / 256, y / 256, w - 1);
    }
  }

  lemma ScaleWidths()
    ensures Scale256(2) == 0x1_0000 && Scale256(4) == U32_LIMIT && Scale256(8) == U64_LIMIT
            && Scale256(16) == U128_LIMIT
  {
    assert Scale256(2) == 0x1_0000;
    assert Scale256(6) == 0x1_0000_0000_0000;
    assert Scale256(10) == 0x1_0000_0000_0000_0000_0000;
    assert Scale256(12) == 0x1_0000_0000_0000_0000_0000_0000;
    assert Scale256(14) == 0x1_0000_0000_0000_0000_0000_0000_0000;
  }

  /** A SCALE compact 32-bit length: the low two bits of the first byte give the form. */
  function Compact(n: nat): Bytes
    requires n < U32_LIMIT
  {
    if n < 0x40 then [4 * n]
    else if n < 0x4000 then LittleEndian(4 * n + 1, 2)
    else if n < 0x4000_0000 then LittleEndian(4 * n + 2, 4)
    else [3] + LittleEndian(n, 4)
  }

  lemma LittleEndianFirst(v: nat, w: nat)
    requires w > 0
    ensures LittleEndian(v, w)[0] == v % 256
  {
  }

  lemma LowBits(n: nat, mode: nat)
    requires mode < 4
    ensures (4 * n + mode) % 256 % 4 == mode
  {
    assert (4 * n + mode) % 256 == 4 * n + mode - 256 * ((4 * n + mode) / 256);
  }

  lemma CompactForm(n: nat)
    requires n < U32_LIMIT
    ensures |Compact(n)| == if n < 0x40 then 1 else if n < 0x4000 then 2 else if n < 0x4000_0000 then 4 else 5
    ensures Compact(n)[0] % 4 == if n < 0x40 then 0 else if n < 0x4000 then 1 else if n < 0x4000_0000 then 2 else 3
  {
    hide LittleEndian;
    if n < 0x40 {
      assert Compact(n) == [4 * n];
    } else if n < 0x4000 {
      LittleEndianFirst(4 * n + 1, 2);
      LowBits(n, 1);
    } else if n < 0x4000_0000 {
      LittleEndianFirst(4 * n + 2, 4);
      LowBits(n, 2);
    }
  }

  lemma CompactInjective(m: nat, n: nat, x: Bytes, y: Bytes)
    requires m < U32_LIMIT && n < U32_LIMIT && Compact(m) + x == Compact(n) + y
    ensures m == n && x == y
  {
    hide LittleEndian, Scale256;
    var a, b := Compact(m), Compact(n);
    CompactForm(m);
    CompactForm(n);
    assert a[0] == (a + x)[0] == (b + y)[0] == b[0];
    assert a == (a + x)[..|a|] && b == (b + y)[..|b|];
    assert x == (a + x)[|a|..] && y == (b + y)[|b|..];
    ScaleWidths();
    if m < 0x40 {
    } else if m < 0x4000 {
      LittleEndianInjective(4 * m + 1, 4 * n + 1, 2);
    } else if m < 0x4000_0000 {
      LittleEndianInjective(4 * m + 2, 4 * n + 2, 4);
    } else {
      assert a[1..] == LittleEndian(m, 4) && b[1..] == LittleEndian(n, 4);
      LittleEndianInjective(m, n, 4);
    }
  }

  /** A tuple `structural` enough to be encoded: the coin amount fits 128 bits. */
  predicate Encodable(cs: seq<Candidate>) {
    |cs| < U32_LIMIT && forall i :: 0 <= i < |cs| ==> cs[i].coins < U128_LIMIT
  }

  function EncodeSpent(s: Option<u64>): Bytes {
    if s.None? then [0] else [1] + LittleEndian(s.value, 8)
  }

  function EncodeCandidate(c: Candidate): Bytes {
    c.beacon + LittleEndian(c.created, 8) + EncodeSpent(c.spent) + LittleEndian(c.coins, 16)
  }

  function EncodeAll(cs: seq<Candidate>): Bytes {
    if cs == [] then [] else EncodeCandidate(cs[0]) + EncodeAll(cs[1..])
  }

  /** `candidate_bytes` of the sorted tuples. */
  function CandidateBytes(cs: seq<Candidate>): Bytes
    requires Encodable(cs)
  {
    Compact(|cs|) + EncodeAll(cs)
  }

  lemma EncodeSpentInjective(s: Option<u64>, t: Option<u64>, x: Bytes, y: Bytes)
    requires EncodeSpent(s) + x == EncodeSpent(t) + y
    ensures s == t && x == y
  {
    var a, b := EncodeSpent(s), EncodeSpent(t);
    assert a[0] == (a + x)[0] == (b + y)[0] == b[0];
    assert x == (a + x)[|a|..] && y == (b + y)[|b|..];
    assert a == (a + x)[..|a|] && b == (b + y)[..|b|];
    if s.Some? {
      ScaleWidths();
      assert a[1..] == LittleEndian(s.value, 8) && b[1..] == LittleEndian(t.value, 8);
      LittleEndianInjective(s.value, t.value, 8);
    }
  }

  lemma SplitEqual(a: Bytes, b: Bytes, x: Bytes, y: Bytes)
    requires |a| == |b| && a + x == b + y
    ensures a == b && x == y
  {
    assert a == (a + x)[..|a|] && b == (b + y)[..|b|];
    assert x == (a + x)[|a|..] && y == (b + y)[|b|..];
  }

  lemma EncodeCandidateInjective(c: Candidate, d: Candidate, x: Bytes, y: Bytes)
    requires c.coins < U128_LIMIT && d.coins < U128_LIMIT && EncodeCandidate(c) + x == EncodeCandidate(d) + y
    ensures c == d && x == y
  {
    hide LittleEndian, EncodeSpent, Scale256;
    var cc, dc := LittleEndian(c.created, 8), LittleEndian(d.created, 8);
    var cs, ds := EncodeSpent(c.spent), EncodeSpent(d.spent);
    var cv, dv := LittleEndian(c.coins, 16), LittleEndian(d.coins, 16);
    assert EncodeCandidate(c) + x == c.beacon + (cc + (cs + (cv + x)));
    assert EncodeCandidate(d) + y == d.beacon + (dc + (ds + (dv + y)));
    SplitEqual(c.beacon, d.beacon, cc + (cs + (cv + x)), dc + (ds + (dv + y)));
    SplitEqual(cc, dc, cs + (cv + x), ds + (dv + y));
    EncodeSpentInjective(c.spent, d.spent, cv + x, dv + y);
    SplitEqual(cv, dv, x, y);
    ScaleWidths();
    LittleEndianInjective(c.created, d.created, 8);
    LittleEndianInjective(c.coins, d.coins, 16);
  }

  lemma {:induction false} EncodeAllInjective(cs: seq<Candidate>, ds: seq<Candidate>)
    requires |cs| == |ds| && EncodeAll(cs) == EncodeAll(ds)
    requires forall i :: 0 <= i < |cs| ==> cs[i].coins < U128_LIMIT && ds[i].coins < U128_LIMIT
    ensures cs == ds
  {
    hide EncodeCandidate;
    if cs != [] {
      EncodeCandidateInjective(cs[0], ds[0], EncodeAll(cs[1..]), EncodeAll(ds[1..]));
      EncodeAllInjective(cs[1..], ds[1..]);
      assert cs == [cs[0]] + cs[1..] && ds == [ds[0]] + ds[1..];
    }
  }

  /** The commitment pre-image is injective on candidate lists. */
  lemma CandidateBytesInjective(cs: seq<Candidate>, ds: seq<Candidate>)
    requires Encodable(cs) && Encodable(ds) && CandidateBytes(cs) == CandidateBytes(ds)
    ensures cs == ds
  {
    CompactInjective(|cs|, |ds|, EncodeAll(cs), EncodeAll(ds));
    EncodeAllInjective(cs, ds);
  }

  // ---------- what the commitment fixes ----------

  lemma {:induction false} CandidateCoinsBounded(rows: seq<Json>, vault: string)
    ensures forall c :: c in CandidatesOf(rows, vault) ==> c.coins < U128_LIMIT
  {
    forall c | c in CandidatesOf(rows, vault)
      ensures c.coins < U128_LIMIT
    {
      CandidatesMember(rows, vault, c);
      var row :| row in rows && CandidateOf(row, vault) == Some(c);
      assert IsCandidate(row, vault, c);
    }
  }

  lemma SortedSameMembers(out: seq<Candidate>, cs: seq<Candidate>, c: Candidate)
    requires multiset(out) == multiset(cs)
    ensures c in out <==> c in cs
  {
    SameMultiset(out, cs);
  }

  /** Equal pre-images give equal entries at every reference: the reduction factors through the commitment. */
  lemma CommitmentFixesEntries(rows: seq<Json>, rows': seq<Json>, vault: string, reference: u64,
                               tuples: seq<Candidate>, tuples': seq<Candidate>,
                               out: seq<(Bytes, nat)>, out': seq<(Bytes, nat)>)
    requires SortedCandidates(tuples, CandidatesOf(rows, vault))
             && SortedCandidates(tuples', CandidatesOf(rows', vault))
    requires Encodable(tuples) && Encodable(tuples') && CandidateBytes(tuples) == CandidateBytes(tuples')
    requires Observes(out, CandidatesOf(rows, vault), reference)
    requires Observes(out', CandidatesOf(rows', vault), reference)
    ensures out == out'
  {
    hide Observes, Encodable, CandidateBytes, Locked;
    CandidateBytesInjective(tuples, tuples');
    var cs, ds := CandidatesOf(rows, vault), CandidatesOf(rows', vault);
    forall c | Locked(c, reference)
      ensures c in cs <==> c in ds
    {
      SortedSameMembers(tuples, cs, c);
      SortedSameMembers(tuples', ds, c);
    }
    ObservesUnique(out, out', cs, ds, reference);
  }

  /** Row order changes neither the pre-image nor the entries. */
  lemma RowOrderIrrelevant(rows: seq<Json>, rows': seq<Json>, vault: string, reference: u64,
                           tuples: seq<Candidate>, tuples': seq<Candidate>,
                           out: seq<(Bytes, nat)>, out': seq<(Bytes, nat)>)
    requires multiset(rows) == multiset(rows')
    requires SortedCandidates(tuples, CandidatesOf(rows, vault))
             && SortedCandidates(tuples', CandidatesOf(rows', vault))
    requires Observes(out, CandidatesOf(rows, vault), reference)
    requires Observes(out', CandidatesOf(rows', vault), reference)
    ensures tuples == tuples' && out == out'
  {
    hide Observes, Locked;
    CandidatesMultiset(rows, rows', vault);
    var cs, ds := CandidatesOf(rows, vault), CandidatesOf(rows', vault);
    SortedCandidatesUnique(tuples, tuples', cs, ds);
    forall c | Locked(c, reference)
      ensures c in cs <==> c in ds
    {
      SortedSameMembers(cs, ds, c);
    }
    ObservesUnique(out, out', cs, ds, reference);
  }
}
