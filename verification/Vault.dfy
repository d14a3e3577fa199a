/** The vault reduction of `cogno-dbsync/src/reduction.rs`: JSON match rows to the largest lock per beacon. */
module Vault {
  import opened Prelude
  import opened Text
  import opened Ordering

  // ---------- JSON values and strict integers ----------

  /** `serde_json::Value`. A number is an unsigned 64-bit integer or one that `as_u64` refuses. */
  datatype Json =
    | Null
    | Bool(b: bool)
    | Number(n: u64)
    | OtherNumber
    | Str(s: string)
    | Array(items: seq<Json>)
    | Object(fields: map<string, Json>)

  function Get(j: Json, key: string): Option<Json> {
    if j.Object? && key in j.fields then Some(j.fields[key]) else None
  }

  /** `as_u64` (`limit` 2^64) and `as_u128` (`limit` 2^128): a JSON integer, or a string of digits only. */
  function Unsigned(j: Json, limit: nat): (r: Option<nat>)
    requires limit >= U64_LIMIT
    ensures r.Some? ==> r.value < limit
  {
    if j.Number? then Some(j.n)
    else if j.Str? && j.s != [] && AllDigits(j.s) && DecimalValue(j.s) < limit then Some(DecimalValue(j.s))
    else None
  }

  /** The strings accepted are the decimal numerals, leading zeros allowed, of the values below the limit. */
  lemma UnsignedMeaning(s: string, n: nat, limit: nat)
    requires limit >= U64_LIMIT
    ensures Unsigned(Str(s), limit) == Some(n) <==> IsNumeral(s, n) && n < limit
  {
    hide IsNumeral, DecimalValue;
    DigitsMeanNumerals(s, n);
  }

  /** `row.<field>.slot_no`. */
  function SlotOf(row: Json, field: string): Option<u64> {
    var o := Get(row, field);
    if o.None? then None else
    var s := Get(o.value, "slot_no");
    if s.None? then None else Unsigned(s.value, U64_LIMIT)
  }

  // ---------- asset keys ----------

  /** The index of the first dot, or the length. */
  function Dot(key: string): (d: nat)
    ensures d <= |key|
    ensures d < |key| ==> key[d] == '.'
    ensures forall i :: 0 <= i < d ==> key[i] != '.'
  {
    if key == [] || key[0] == '.' then 0 else 1 + Dot(key[1..])
  }

  function LowerChar(c: char): char {
    if 'A' <= c <= 'Z' then (c as int + 32) as char else c
  }

  function Lower(s: string): (r: string)
    ensures |r| == |s| && forall i :: 0 <= i < |s| ==> r[i] == LowerChar(s[i])
  {
    seq(|s|, i requires 0 <= i < |s| => LowerChar(s[i]))
  }

  /** The policy half of the key, case-folded, is the vault policy. */
  predicate IsVaultKey(key: string, vault: string) {
    Lower(key[..Dot(key)]) == vault
  }

  /** The beacon an asset names: quantity exactly one and a 32-byte name. */
  function BeaconOfAsset(key: string, qty: Json): Option<Hash32> {
    if Unsigned(qty, U64_LIMIT) != Some(1) || Dot(key) == |key| then None
    else HexSpec(key[Dot(key) + 1..], 32)
  }

  function VaultKeys(assets: map<string, Json>, vault: string): set<string> {
    set k | k in assets && IsVaultKey(k, vault)
  }

  function AssetsOf(row: Json): map<string, Json> {
    var v := Get(row, "value");
    if v.None? then map[] else
    var a := Get(v.value, "assets");
    if a.Some? && a.value.Object? then a.value.fields else map[]
  }

  /** The row's beacon: exactly one asset of the vault policy, and that asset names a beacon. */
  ghost predicate HasBeacon(row: Json, vault: string, beacon: Hash32) {
    exists k :: k in AssetsOf(row) && VaultKeys(AssetsOf(row), vault) == {k}
                && BeaconOfAsset(k, AssetsOf(row)[k]) == Some(beacon)
  }

  // ---------- candidates ----------

  datatype Candidate = Candidate(beacon: Hash32, created: u64, spent: Option<u64>, coins: nat)

  function Coins(row: Json): Option<nat> {
    var v := Get(row, "value");
    if v.None? then None else
    var c := Get(v.value, "coins");
    if c.None? then None else Unsigned(c.value, U128_LIMIT)
  }

  /** A row is a candidate iff it passes the structural gate: one beacon, a creation slot, parseable coins. */
  ghost predicate IsCandidate(row: Json, vault: string, c: Candidate) {
    HasBeacon(row, vault, c.beacon)
    && SlotOf(row, "created_at") == Some(c.created)
    && c.spent == SlotOf(row, "spent_at")
    && Coins(row) == Some(c.coins)
  }

  lemma CandidateUnique(row: Json, vault: string, a: Candidate, b: Candidate)
    requires IsCandidate(row, vault, a) && IsCandidate(row, vault, b)
    ensures a == b
  {
    var ks := VaultKeys(AssetsOf(row), vault);
    var k :| k in AssetsOf(row) && ks == {k} && BeaconOfAsset(k, AssetsOf(row)[k]) == Some(a.beacon);
    var k' :| k' in AssetsOf(row) && ks == {k'} && BeaconOfAsset(k', AssetsOf(row)[k']) == Some(b.beacon);
    assert k' in ks;
  }

  ghost function CandidateOf(row: Json, vault: string): Option<Candidate> {
    if exists c :: IsCandidate(row, vault, c) then
      var c :| IsCandidate(row, vault, c); Some(c)
    else None
  }

  lemma CandidateMeaning(row: Json, vault: string, c: Candidate)
    ensures CandidateOf(row, vault) == Some(c) <==> IsCandidate(row, vault, c)
  {
    hide IsCandidate;
    var r := CandidateOf(row, vault);
    if IsCandidate(row, vault, c) {
      CandidateUnique(row, vault, c, r.value);
    }
  }

  ghost function CandidatesOf(rows: seq<Json>, vault: string): seq<Candidate> {
    if rows == [] then [] else
    var c := CandidateOf(rows[|rows| - 1], vault);
    CandidatesOf(rows[..|rows| - 1], vault) + if c.Some? then [c.value] else []
  }

  lemma CandidatesMember(rows: seq<Json>, vault: string, c: Candidate)
    ensures c in CandidatesOf(rows, vault) <==> exists row :: row in rows && CandidateOf(row, vault) == Some(c)
  {
    hide CandidateOf, CandidatesOf;
    if c in CandidatesOf(rows, vault) {
      var i := RowOfCandidate(rows, vault, c);
      assert rows[i] in rows;
    }
    if row :| row in rows && CandidateOf(row, vault) == Some(c) {
      var i :| 0 <= i < |rows| && rows[i] == row;
      CandidateOfRow(rows, vault, c, i);
    }
  }

  lemma {:induction false} RowOfCandidate(rows: seq<Json>, vault: string, c: Candidate) returns (i: nat)
    requires c in CandidatesOf(rows, vault)
    ensures i < |rows| && CandidateOf(rows[i], vault) == Some(c)
  {
    hide CandidateOf;
    var n := |rows| - 1;
    if c in CandidatesOf(rows[..n], vault) {
      i := RowOfCandidate(rows[..n], vault, c);
    } else {
      i := n;
    }
  }

  lemma {:induction false} CandidateOfRow(rows: seq<Json>, vault: string, c: Candidate, i: nat)
    requires i < |rows| && CandidateOf(rows[i], vault) == Some(c)
    ensures c in CandidatesOf(rows, vault)
    decreases |rows|
  {
    hide CandidateOf;
    var n := |rows| - 1;
    if i < n {
      CandidateOfRow(rows[..n], vault, c, i);
      assert c in CandidatesOf(rows[..n], vault);
    }
  }

  /** Counting rows in as-of the reference: created by then, not spent by then, and worth something. */
  predicate Locked(c: Candidate, reference: u64) {
    c.created <= reference && (c.spent.None? || c.spent.value > reference) && c.coins > 0
  }

  // ---------- the reduced entries ----------

  function EntryKeys(out: seq<(Bytes, nat)>): (keys: seq<Key>)
    ensures |keys| == |out| && forall i :: 0 <= i < |out| ==> keys[i] == out[i].0
  {
    seq(|out|, i requires 0 <= i < |out| => out[i].0)
  }

  ghost predicate IsLargest(cs: seq<Candidate>, reference: u64, beacon: Bytes, coins: nat) {
    (exists c :: c in cs && Locked(c, reference) && c.beacon == beacon && c.coins == coins)
    && forall c :: c in cs && Locked(c, reference) && c.beacon == beacon ==> c.coins <= coins
  }

  /** The canonical entries: ascending beacons, each with its largest lock, and every locked beacon present. */
  ghost predicate Observes(out: seq<(Bytes, nat)>, cs: seq<Candidate>, reference: u64) {
    Ascending(EntryKeys(out))
    && (forall i :: 0 <= i < |out| ==> IsLargest(cs, reference, out[i].0, out[i].1))
    && (forall c :: c in cs && Locked(c, reference) ==> Present(out, c.beacon))
  }

  ghost predicate Present(out: seq<(Bytes, nat)>, key: Bytes) {
    exists i :: 0 <= i < |out| && out[i].0 == key
  }

  ghost predicate SameLocks(cs: seq<Candidate>, ds: seq<Candidate>, reference: u64) {
    forall c :: Locked(c, reference) ==> (c in cs <==> c in ds)
  }

  lemma LargestUnique(cs: seq<Candidate>, ds: seq<Candidate>, reference: u64, beacon: Bytes, x: nat, y: nat)
    requires SameLocks(cs, ds, reference)
    requires IsLargest(cs, reference, beacon, x) && IsLargest(ds, reference, beacon, y)
    ensures x == y
  {
    var c :| c in cs && Locked(c, reference) && c.beacon == beacon && c.coins == x;
    var d :| d in ds && Locked(d, reference) && d.beacon == beacon && d.coins == y;
    assert c in ds && d in cs;
  }

  lemma PresentKey(out: seq<(Bytes, nat)>, k: Bytes)
    ensures Present(out, k) <==> k in EntryKeys(out)
  {
    if Present(out, k) {
      var i :| 0 <= i < |out| && out[i].0 == k;
      assert EntryKeys(out)[i] == k;
    }
    if k in EntryKeys(out) {
      var i :| 0 <= i < |out| && EntryKeys(out)[i] == k;
      assert out[i].0 == k;
    }
  }

  lemma EntryCovered(out: seq<(Bytes, nat)>, out': seq<(Bytes, nat)>, cs: seq<Candidate>, ds: seq<Candidate>,
                     reference: u64, i: nat)
    requires Observes(out, cs, reference) && Observes(out', ds, reference) && SameLocks(cs, ds, reference)
    requires i < |out|
    ensures Present(out', out[i].0)
  {
    hide Ascending, Locked, EntryKeys;
    assert IsLargest(cs, reference, out[i].0, out[i].1);
    var c :| c in cs && Locked(c, reference) && c.beacon == out[i].0 && c.coins == out[i].1;
    assert c in ds;
  }

  lemma KeysCovered(out: seq<(Bytes, nat)>, out': seq<(Bytes, nat)>, cs: seq<Candidate>, ds: seq<Candidate>,
                    reference: u64, k: Key)
    requires Observes(out, cs, reference) && Observes(out', ds, reference) && SameLocks(cs, ds, reference)
    requires k in EntryKeys(out)
    ensures k in EntryKeys(out')
  {
    hide Observes, SameLocks, Present;
    var i :| 0 <= i < |out| && EntryKeys(out)[i] == k;
    EntryCovered(out, out', cs, ds, reference, i);
    PresentKey(out', out[i].0);
  }

  /** The entries depend on nothing but the locked candidates: not on order, multiplicity or dead rows. */
  lemma ObservesUnique(out: seq<(Bytes, nat)>, out': seq<(Bytes, nat)>, cs: seq<Candidate>, ds: seq<Candidate>,
                       reference: u64)
    requires Observes(out, cs, reference) && Observes(out', ds, reference) && SameLocks(cs, ds, reference)
    ensures out == out'
  {
    hide Locked;
    forall k
      ensures k in EntryKeys(out) <==> k in EntryKeys(out')
    {
      if k in EntryKeys(out) {
        KeysCovered(out, out', cs, ds, reference, k);
      }
      if k in EntryKeys(out') {
        KeysCovered(out', out, ds, cs, reference, k);
      }
    }
    AscendingUnique(EntryKeys(out), EntryKeys(out'));
    forall i | 0 <= i < |out|
      ensures out[i] == out'[i]
    {
      assert EntryKeys(out)[i] == EntryKeys(out')[i];
      LargestUnique(cs, ds, reference, out[i].0, out[i].1, out'[i].1);
    }
  }

  // ---------- the loops ----------

  /** The scan after the assets outside `todo`. */
  ghost predicate Scanned(assets: map<string, Json>, vault: string, todo: set<string>, n: nat, beacon: Option<Hash32>) {
    var done := VaultKeys(assets, vault) - todo;
    n == |done| && forall k :: k in assets && done == {k} ==> beacon == BeaconOfAsset(k, assets[k])
  }

  lemma ScanStep(assets: map<string, Json>, vault: string, todo: set<string>, n: nat, beacon: Option<Hash32>,
                 key: string)
    requires key in todo && todo <= assets.Keys && Scanned(assets, vault, todo, n, beacon)
    requires n == 0 ==> beacon.None?
    ensures !IsVaultKey(key, vault) ==> Scanned(assets, vault, todo - {key}, n, beacon)
    ensures IsVaultKey(key, vault) ==>
              Scanned(assets, vault, todo - {key}, n + 1,
                      if Unsigned(assets[key], U64_LIMIT) == Some(1) then NamedBeacon(key) else beacon)
  {
    hide BeaconOfAsset, IsVaultKey, Unsigned, NamedBeacon;
    var ks := VaultKeys(assets, vault);
    var done, next := ks - todo, ks - (todo - {key});
    AssetBeacon(key, assets[key]);
    if IsVaultKey(key, vault) {
      assert next == done + {key};
      SingletonStep(done, key);
    } else {
      assert next == done;
    }
  }

  /** The structural gate's scan over the asset object, in whatever order it is stored. */
  method ScanAssets(assets: map<string, Json>, vault: string) returns (vaultAssets: nat, beacon: Option<Hash32>)
    ensures Scanned(assets, vault, {}, vaultAssets, beacon)
  {
    hide BeaconOfAsset, IsVaultKey;
    vaultAssets, beacon := 0, None;
    var todo := assets.Keys;
    assert VaultKeys(assets, vault) - todo == {};
    while todo != {}
      invariant todo <= assets.Keys && (vaultAssets == 0 ==> beacon.None?)
      invariant Scanned(assets, vault, todo, vaultAssets, beacon)
      decreases |todo|
    {
      hide Scanned;
      var key :| key in todo;
      ScanStep(assets, vault, todo, vaultAssets, beacon, key);
      todo := todo - {key};
      if IsVaultKey(key, vault) {
        vaultAssets := vaultAssets + 1;
        if Unsigned(assets[key], U64_LIMIT) == Some(1) {
          beacon := NamedBeacon(key);
        }
      }
    }
  }

  /** `split_once('.')` and `hex32`. */
  function NamedBeacon(key: string): Option<Hash32> {
    if Dot(key) == |key| then None else HexSpec(key[Dot(key) + 1..], 32)
  }

  lemma AssetBeacon(key: string, qty: Json)
    ensures BeaconOfAsset(key, qty) == if Unsigned(qty, U64_LIMIT) == Some(1) then NamedBeacon(key) else None
  {
  }

  lemma SingletonStep(done: set<string>, key: string)
    ensures forall k :: key !in done && done + {key} == {k} ==> done == {} && k == key
  {
    forall k | key !in done && done + {key} == {k}
      ensures done == {} && k == key
    {
      assert key in {k};
      assert forall x :: x in done ==> x in {k};
    }
  }

  /** The candidate of a row, computed. */
  method RowCandidate(row: Json, vault: string) returns (r: Option<Candidate>)
    ensures r == CandidateOf(row, vault)
  {
    hide BeaconOfAsset, IsVaultKey, Unsigned;
    var n, beacon := ScanAssets(AssetsOf(row), vault);
    BeaconDecided(row, vault, n, beacon);
    var created := SlotOf(row, "created_at");
    var coins := Coins(row);
    if n != 1 || beacon.None? || created.None? || coins.None? {
      return None;
    }
    r := Some(Candidate(beacon.value, created.value, SlotOf(row, "spent_at"), coins.value));
    assert IsCandidate(row, vault, r.value);
  }

  lemma BeaconDecided(row: Json, vault: string, n: nat, beacon: Option<Hash32>)
    requires Scanned(AssetsOf(row), vault, {}, n, beacon)
    ensures forall b :: HasBeacon(row, vault, b) <==> n == 1 && beacon == Some(b)
  {
    hide BeaconOfAsset, IsVaultKey;
    var ks := VaultKeys(AssetsOf(row), vault);
    assert ks - {} == ks;
    if n == 1 {
      var k :| k in ks;
      assert |ks - {k}| == 0;
      assert ks == {k};
    }
    forall b | HasBeacon(row, vault, b)
      ensures n == 1 && beacon == Some(b)
    {
      var k :| k in AssetsOf(row) && ks == {k} && BeaconOfAsset(k, AssetsOf(row)[k]) == Some(b);
    }
  }

  /** The `largest` map after some rows. */
  ghost predicate Tracks(largest: map<Bytes, nat>, cs: seq<Candidate>, reference: u64) {
    (forall b :: b in largest ==> IsLargest(cs, reference, b, largest[b]))
    && forall c :: c in cs && Locked(c, reference) ==> c.beacon in largest
  }

  lemma TracksStep(largest: map<Bytes, nat>, cs: seq<Candidate>, reference: u64, c: Candidate)
    requires Tracks(largest, cs, reference)
    ensures !Locked(c, reference) ==> Tracks(largest, cs + [c], reference)
    ensures Locked(c, reference) && (c.beacon in largest ==> c.coins <= largest[c.beacon]) && c.beacon in largest
            ==> Tracks(largest, cs + [c], reference)
    ensures Locked(c, reference) && (c.beacon in largest ==> c.coins > largest[c.beacon])
            ==> Tracks(largest[c.beacon := c.coins], cs + [c], reference)
  {
    hide Locked;
    forall b | b in largest && !(Locked(c, reference) && c.beacon == b && c.coins > largest[b])
      ensures IsLargest(cs + [c], reference, b, largest[b])
    {
      var w :| w in cs && Locked(w, reference) && w.beacon == b && w.coins == largest[b];
      assert w in cs + [c];
    }
    if Locked(c, reference) {
      assert c in cs + [c];
    }
  }

  method ObserveAsOf(rows: seq<Json>, vaultHash: string, reference: u64) returns (out: seq<(Bytes, nat)>)
    ensures Observes(out, CandidatesOf(rows, Lower(vaultHash)), reference)
  {
    hide Lower, Locked;
    var vault := Lower(vaultHash);
    var largest: map<Bytes, nat> := map[];
    ghost var cs: seq<Candidate> := [];
    for i := 0 to |rows|
      invariant cs == CandidatesOf(rows[..i], vault)
      invariant Tracks(largest, cs, reference)
    {
      assert rows[..i + 1][..i] == rows[..i];
      var c := RowCandidate(rows[i], vault);
      if c.None? {
        continue;
      }
      TracksStep(largest, cs, reference, c.value);
      cs := cs + [c.value];
      if !Locked(c.value, reference) {
        continue;
      }
      var entry := if c.value.beacon in largest then largest[c.value.beacon] else 0;
      LockedPositive(c.value, reference);
      if c.value.coins > entry {
        largest := largest[c.value.beacon := c.value.coins];
      }
    }
    assert rows[..|rows|] == rows;
    out := SortedEntries(largest);
    EntriesObserve(out, largest, cs, reference);
  }

  lemma LockedPositive(c: Candidate, reference: u64)
    requires Locked(c, reference)
    ensures c.coins > 0
  {
  }

  /** A `BTreeMap` read out in order. */
  ghost predicate EntriesOf(out: seq<(Bytes, nat)>, m: map<Bytes, nat>) {
    Ascending(EntryKeys(out))
    && (forall i :: 0 <= i < |out| ==> out[i].0 in m && m[out[i].0] == out[i].1)
    && forall k :: k in m ==> Present(out, k)
  }

  lemma EntriesObserve(out: seq<(Bytes, nat)>, m: map<Bytes, nat>, cs: seq<Candidate>, reference: u64)
    requires EntriesOf(out, m) && Tracks(m, cs, reference)
    ensures Observes(out, cs, reference)
  {
    hide Locked, IsLargest, Ascending;
  }

  method SortedEntries(m: map<Bytes, nat>) returns (out: seq<(Bytes, nat)>)
    ensures EntriesOf(out, m)
  {
    out := [];
    var todo := m.Keys;
    while todo != {}
      invariant todo <= m.Keys
      invariant EntriesOf(out, map k | k in m && k !in todo :: m[k])
      decreases |todo|
    {
      var k :| k in todo;
      ghost var done := map k | k in m && k !in todo :: m[k];
      var p := Position(EntryKeys(out), k);
      InsertEntry(out, done, k, m[k]);
      out := out[..p] + [(k, m[k])] + out[p..];
      todo := todo - {k};
      assert (map k | k in m && k !in todo :: m[k]) == done[k := m[k]];
    }
    assert (map k | k in m && k !in todo :: m[k]) == m;
  }

  lemma InsertEntry(out: seq<(Bytes, nat)>, m: map<Bytes, nat>, k: Bytes, v: nat)
    requires EntriesOf(out, m) && k !in m
    ensures var p := Position(EntryKeys(out), k);
            EntriesOf(out[..p] + [(k, v)] + out[p..], m[k := v])
  {
    hide Less, Ascending, EntryKeys, Present, Position;
    var p := Position(EntryKeys(out), k);
    InsertKeys(out, m, k, v);
    InsertValues(out, m, k, v, p);
    forall b | b in m[k := v]
      ensures Present(out[..p] + [(k, v)] + out[p..], b)
    {
      InsertPresent(out, k, v, p, b);
    }
  }

  lemma InsertKeys(out: seq<(Bytes, nat)>, m: map<Bytes, nat>, k: Bytes, v: nat)
    requires EntriesOf(out, m) && k !in m
    ensures var p := Position(EntryKeys(out), k); Ascending(EntryKeys(out[..p] + [(k, v)] + out[p..]))
  {
    hide Less, Position, Ascending;
    var keys := EntryKeys(out);
    var p := Position(keys, k);
    assert k !in keys by {
      hide EntryKeys;
      PresentKey(out, k);
    }
    InsertAscending(keys, k);
    assert EntryKeys(out[..p] + [(k, v)] + out[p..]) == keys[..p] + [k] + keys[p..];
  }

  lemma InsertValues(out: seq<(Bytes, nat)>, m: map<Bytes, nat>, k: Bytes, v: nat, p: nat)
    requires p <= |out| && k !in m
    requires forall i :: 0 <= i < |out| ==> out[i].0 in m && m[out[i].0] == out[i].1
    ensures var out' := out[..p] + [(k, v)] + out[p..];
            forall i :: 0 <= i < |out'| ==> out'[i].0 in m[k := v] && m[k := v][out'[i].0] == out'[i].1
  {
    var out' := out[..p] + [(k, v)] + out[p..];
    forall i | 0 <= i < |out'|
      ensures out'[i].0 in m[k := v] && m[k := v][out'[i].0] == out'[i].1
    {
      assert out'[i] == if i < p then out[i] else if i == p then (k, v) else out[i - 1];
    }
  }

  lemma InsertPresent(out: seq<(Bytes, nat)>, k: Bytes, v: nat, p: nat, b: Bytes)
    requires p <= |out| && (b == k || Present(out, b))
    ensures Present(out[..p] + [(k, v)] + out[p..], b)
  {
    var out' := out[..p] + [(k, v)] + out[p..];
    if b == k {
      assert out'[p].0 == b;
    } else {
      var i :| 0 <= i < |out| && out[i].0 == b;
      assert out'[if i < p then i else i + 1] == out[i];
    }
  }
}
