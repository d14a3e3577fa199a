/** The structural gate of the vault reduction, read off the JSON of a row. */
module VaultFields {
  import opened Prelude
  import opened Text
  import opened Vault

  // ---------- leaves ----------

  /** `c` is the hexadecimal digit of `v`, in either case. */
  predicate HexDigitOf(c: char, v: int) {
    ('0' <= c <= '9' && v == c as int - 48) || ('a' <= c <= 'f' && v == c as int - 87)
    || ('A' <= c <= 'F' && v == c as int - 55)
  }

  /** Two digits a byte, the high one first. */
  ghost predicate Spells(s: string, b: Bytes) {
    |s| == 2 * |b| && forall i :: 0 <= i < |b| ==> ByteAt(s, i, b[i])
  }

  ghost predicate ByteAt(s: string, i: nat, b: byte)
    requires 2 * i + 1 < |s|
  {
    HexDigitOf(s[2 * i], b / 16) && HexDigitOf(s[2 * i + 1], b % 16)
  }

  lemma HexByteExact(c: char, d: char, b: byte)
    ensures HexByte(c, d) == Some(b) <==> HexDigitOf(c, b / 16) && HexDigitOf(d, b % 16)
  {
  }

  lemma {:induction false} HexPairsExact(s: string, b: Bytes)
    requires |s| == 2 * |b|
    ensures HexPairs(s) == Some(b) <==> Spells(s, b)
  {
    hide HexByte;
    if s != [] {
      var n := |b| - 1;
      var front, last := s[..|s| - 2], b[n];
      assert b == b[..n] + [last];
      HexPairsExact(front, b[..n]);
      HexByteExact(s[|s| - 2], s[|s| - 1], last);
      assert forall i :: 0 <= i < n ==> (ByteAt(front, i, b[i]) <==> ByteAt(s, i, b[i]));
      SpellsSnoc(s, b);
    }
  }

  lemma SpellsSnoc(s: string, b: Bytes)
    requires |s| == 2 * |b| && b != []
    ensures Spells(s, b) <==> Spells(s[..|s| - 2], b[..|b| - 1]) && ByteAt(s, |b| - 1, b[|b| - 1])
  {
    hide HexDigitOf;
    var n, front := |b| - 1, s[..|s| - 2];
    assert forall i :: 0 <= i < n ==> (ByteAt(front, i, b[..n][i]) <==> ByteAt(s, i, b[i]));
  }

  /** `hex_bytes` accepts exactly `n` bytes' worth of digits, with or without `0x`. */
  lemma HexExact(s: string, n: nat, b: Bytes)
    ensures HexSpec(s, n) == Some(b) <==>
            |b| == n && if |s| >= 2 && s[0] == '0' && s[1] == 'x' then Spells(s[2..], b) else Spells(s, b)
  {
    hide HexPairs;
    var digits := Stripped(s);
    assert "0x" <= s <==> |s| >= 2 && s[0] == '0' && s[1] == 'x';
    if |digits| == 2 * n && |b| == n {
      HexPairsExact(digits, b);
    }
  }

  /** A JSON integer, or a string that is a numeral. */
  ghost predicate Denotes(j: Json, n: nat, limit: nat) {
    match j
    case Number(m) => m == n
    case Str(s) => IsNumeral(s, n) && n < limit
    case _ => false
  }

  lemma UnsignedExact(j: Json, n: nat, limit: nat)
    requires limit >= U64_LIMIT
    ensures Unsigned(j, limit) == Some(n) <==> Denotes(j, n, limit)
  {
    hide IsNumeral, DecimalValue;
    if j.Str? {
      UnsignedMeaning(j.s, n, limit);
    }
  }

  /** Character for character, up to ASCII case. */
  predicate SameText(a: string, b: string) {
    |a| == |b| && forall i :: 0 <= i < |a| ==> SameLetter(a[i], b[i])
  }

  predicate SameLetter(c: char, d: char) {
    c == d || ('A' <= c <= 'Z' && d as int == c as int + 32) || ('A' <= d <= 'Z' && c as int == d as int + 32)
  }

  lemma LowerExact(a: string, b: string)
    ensures Lower(a) == Lower(b) <==> SameText(a, b)
  {
    assert forall i :: 0 <= i < |a| && i < |b| ==> (SameLetter(a[i], b[i]) <==> LowerChar(a[i]) == LowerChar(b[i]));
    if Lower(a) == Lower(b) {
      assert forall i :: 0 <= i < |a| ==> Lower(a)[i] == Lower(b)[i];
    }
  }

  // ---------- one row ----------

  /** `row.<a>.<b>` is `v`. */
  predicate At(row: Json, a: string, b: string, v: Json) {
    row.Object? && a in row.fields && row.fields[a].Object? && b in row.fields[a].fields && row.fields[a].fields[b] == v
  }

  ghost predicate HasSlot(row: Json, field: string, slot: u64) {
    exists v :: At(row, field, "slot_no", v) && Denotes(v, slot, U64_LIMIT)
  }

  ghost predicate HasCoins(row: Json, coins: nat) {
    exists v :: At(row, "value", "coins", v) && Denotes(v, coins, U128_LIMIT)
  }

  /** The first dot stands at `d`, or there is none and `d` is the end. */
  predicate SplitsAt(key: string, d: int) {
    0 <= d <= |key| && (forall i :: 0 <= i < d ==> key[i] != '.') && (d < |key| ==> key[d] == '.')
  }

  /** What stands before the first dot is the vault's policy hash, in any case. */
  ghost predicate OfPolicy(key: string, vaultHash: string) {
    exists d :: SplitsAt(key, d) && SameText(key[..d], vaultHash)
  }

  /** What stands after the first dot names the beacon. */
  ghost predicate NamesBeacon(key: string, beacon: Hash32) {
    exists d :: SplitsAt(key, d) && d < |key| && HexSpec(key[d + 1..], 32) == Some(beacon)
  }

  /** Exactly one asset is of the policy; there is one of it, and its name is the beacon. */
  ghost predicate OneBeacon(assets: map<string, Json>, vaultHash: string, beacon: Hash32) {
    exists key :: key in assets && Denotes(assets[key], 1, U64_LIMIT) && NamesBeacon(key, beacon)
                  && forall k :: k in assets ==> (OfPolicy(k, vaultHash) <==> k == key)
  }

  ghost predicate HoldsBeacon(row: Json, vaultHash: string, beacon: Hash32) {
    exists assets :: At(row, "value", "assets", Object(assets)) && OneBeacon(assets, vaultHash, beacon)
  }

  lemma SplitUnique(key: string, d: int)
    ensures SplitsAt(key, d) <==> d == Dot(key)
  {
  }

  lemma PolicyExact(key: string, vaultHash: string)
    ensures IsVaultKey(key, Lower(vaultHash)) <==> OfPolicy(key, vaultHash)
  {
    hide Lower, SameText;
    SplitUnique(key, Dot(key));
    LowerExact(key[..Dot(key)], vaultHash);
    if d :| SplitsAt(key, d) && SameText(key[..d], vaultHash) {
      SplitUnique(key, d);
    }
  }

  lemma BeaconExact(key: string, qty: Json, beacon: Hash32)
    ensures BeaconOfAsset(key, qty) == Some(beacon) <==> Denotes(qty, 1, U64_LIMIT) && NamesBeacon(key, beacon)
  {
    hide HexSpec, Unsigned, Denotes;
    UnsignedExact(qty, 1, U64_LIMIT);
    SplitUnique(key, Dot(key));
    if d :| SplitsAt(key, d) && d < |key| && HexSpec(key[d + 1..], 32) == Some(beacon) {
      SplitUnique(key, d);
    }
  }

  lemma OneBeaconExact(assets: map<string, Json>, vaultHash: string, beacon: Hash32)
    ensures OneBeacon(assets, vaultHash, beacon) <==>
            exists k :: k in assets && VaultKeys(assets, Lower(vaultHash)) == {k}
                        && BeaconOfAsset(k, assets[k]) == Some(beacon)
  {
    hide Lower, IsVaultKey, OfPolicy, BeaconOfAsset, Denotes, NamesBeacon;
    forall k
      ensures IsVaultKey(k, Lower(vaultHash)) <==> OfPolicy(k, vaultHash)
    {
      PolicyExact(k, vaultHash);
    }
    forall k | k in assets
      ensures BeaconOfAsset(k, assets[k]) == Some(beacon) <==>
              Denotes(assets[k], 1, U64_LIMIT) && NamesBeacon(k, beacon)
    {
      BeaconExact(k, assets[k], beacon);
    }
    var keys := VaultKeys(assets, Lower(vaultHash));
    forall key | key in assets
      ensures keys == {key} <==> forall k :: k in assets ==> (OfPolicy(k, vaultHash) <==> k == key)
    {
      if keys == {key} {
        assert forall k :: k in assets ==> (k in keys <==> k == key);
      }
    }
  }

  lemma HasBeaconExact(row: Json, vaultHash: string, beacon: Hash32)
    ensures HasBeacon(row, Lower(vaultHash), beacon) <==> HoldsBeacon(row, vaultHash, beacon)
  {
    hide Lower, IsVaultKey, BeaconOfAsset, OneBeacon, VaultKeys;
    OneBeaconExact(AssetsOf(row), vaultHash, beacon);
    if HasBeacon(row, Lower(vaultHash), beacon) {
      assert At(row, "value", "assets", Object(AssetsOf(row)));
    }
  }

  lemma SlotExact(row: Json, field: string, slot: u64)
    ensures SlotOf(row, field) == Some(slot) <==> HasSlot(row, field, slot)
  {
    hide Unsigned, Denotes;
    if SlotOf(row, field).Some? {
      assert At(row, field, "slot_no", row.fields[field].fields["slot_no"]);
    }
    if v :| At(row, field, "slot_no", v) {
      UnsignedExact(v, slot, U64_LIMIT);
    }
  }

  lemma CoinsExact(row: Json, coins: nat)
    ensures Coins(row) == Some(coins) <==> HasCoins(row, coins)
  {
    hide Unsigned, Denotes;
    if Coins(row).Some? {
      assert At(row, "value", "coins", row.fields["value"].fields["coins"]);
    }
    if v :| At(row, "value", "coins", v) {
      UnsignedExact(v, coins, U128_LIMIT);
    }
  }

  /** A row is a candidate by what its JSON holds: one beacon, a creation slot, coins, and its spend if it has one. */
  lemma CandidateExact(row: Json, vaultHash: string, c: Candidate)
    ensures IsCandidate(row, Lower(vaultHash), c) <==>
            HoldsBeacon(row, vaultHash, c.beacon) && HasSlot(row, "created_at", c.created) && HasCoins(row, c.coins)
            && match c.spent
               case Some(slot) => HasSlot(row, "spent_at", slot)
               case None => forall slot: u64 :: !HasSlot(row, "spent_at", slot)
  {
    hide Lower, HasBeacon, HoldsBeacon, HasSlot, SlotOf, Coins, HasCoins;
    HasBeaconExact(row, vaultHash, c.beacon);
    SlotExact(row, "created_at", c.created);
    CoinsExact(row, c.coins);
    forall slot: u64
      ensures SlotOf(row, "spent_at") == Some(slot) <==> HasSlot(row, "spent_at", slot)
    {
      SlotExact(row, "spent_at", slot);
    }
  }
}
