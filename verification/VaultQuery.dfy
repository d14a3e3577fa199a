/** The vault query's rows (`cogno-dbsync/src/dbsync.rs`): the JSON it builds of an output, its spentness clause, and
    what the reduction makes of a row. */
module VaultQuery {
  import opened Prelude
  import opened Text
  import opened Vault

  /** How an output was consumed. A view may hold a consuming input whose block slot its join cannot resolve; on
      the chain every spend has a slot. */
  datatype Spend = Unspent | SpentAt(slot: u64) | SpentSlotUnknown

  /** An output at the vault address, with its assets under the vault policy. */
  datatype TxOut = TxOut(coins: u64, assets: map<Bytes, nat>, created: u64, spend: Spend)

  // ---------- the rows ----------

  /** `emitted_spent_at`. */
  function SpentJson(s: Spend): Json {
    match s
    case Unspent => Null
    case SpentAt(slot) => Object(map["slot_no" := Number(slot)])
    case SpentSlotUnknown => Object(map["slot_no" := Null])
  }

  /** The query's spentness clause, `sql_predicate_keeps`. */
  predicate SqlKeeps(s: Spend, reference: u64) {
    s.Unspent? || s.SpentSlotUnknown? || s.slot > reference
  }

  function AssetKey(policy: Bytes, name: Bytes): string {
    HexEncode(policy) + "." + HexEncode(name)
  }

  lemma AssetKeyParts(policy: Bytes, name: Bytes)
    ensures var key := AssetKey(policy, name);
            Dot(key) == |HexEncode(policy)| < |key|
            && key[..Dot(key)] == HexEncode(policy) && key[Dot(key) + 1..] == HexEncode(name)
  {
    var p, key := HexEncode(policy), AssetKey(policy, name);
    assert key[|p|] == '.';
    assert forall i :: 0 <= i < |p| ==> key[i] == p[i] && IsHexDigit(p[i]);
  }

  lemma AssetKeyInjective(policy: Bytes, a: Bytes, b: Bytes)
    requires AssetKey(policy, a) == AssetKey(policy, b)
    ensures a == b
  {
    AssetKeyParts(policy, a);
    AssetKeyParts(policy, b);
    HexInjective(a, b);
  }

  lemma AssetKeysInjective(policy: Bytes)
    ensures forall a, b :: AssetKey(policy, a) == AssetKey(policy, b) ==> a == b
  {
    hide AssetKey;
    forall a, b | AssetKey(policy, a) == AssetKey(policy, b)
      ensures a == b
    {
      AssetKeyInjective(policy, a, b);
    }
  }

  function AssetsJson(o: TxOut, policy: Bytes): map<string, Json> {
    AssetKeysInjective(policy);
    map n | n in o.assets :: AssetKey(policy, n) := Str(Decimal(o.assets[n]))
  }

  /** One match row, as `json_build_object` shapes it. */
  function RowJson(o: TxOut, policy: Bytes): Json {
    Object(map[
      "value" := Object(map["coins" := Str(Decimal(o.coins)), "assets" := Object(AssetsJson(o, policy))]),
      "created_at" := Object(map["slot_no" := Number(o.created)]),
      "spent_at" := SpentJson(o.spend)])
  }

  /** The rows the query keeps: created by the reference, unspent as of it, holding some vault asset. */
  predicate Kept(o: TxOut, reference: u64) {
    o.created <= reference && SqlKeeps(o.spend, reference) && o.assets != map[]
  }

  // ---------- what a row means ----------

  /** The beacon an output locks under: its one vault asset, at quantity one, with a 32-byte name. */
  predicate Locks(o: TxOut, beacon: Hash32) {
    o.assets == map[beacon := 1]
  }

  function SpentSlot(s: Spend): Option<u64> {
    if s.SpentAt? then Some(s.slot) else None
  }

  lemma UnsignedDecimal(n: nat, limit: nat)
    requires limit >= U64_LIMIT
    ensures Unsigned(Str(Decimal(n)), limit) == if n < limit then Some(n) else None
  {
    DecimalRoundTrip(n);
  }

  lemma LowerHex(b: Bytes)
    ensures Lower(HexEncode(b)) == HexEncode(b)
  {
    var s := HexEncode(b);
    assert forall i :: 0 <= i < |s| ==> IsHexDigit(s[i]) && LowerChar(s[i]) == s[i];
  }

  lemma AssetMeaning(policy: Bytes, name: Bytes, qty: nat)
    ensures IsVaultKey(AssetKey(policy, name), HexEncode(policy))
    ensures BeaconOfAsset(AssetKey(policy, name), Str(Decimal(qty)))
         == if qty == 1 && |name| == 32 then Some(name) else None
  {
    hide Decimal, HexEncode, HexSpec, Lower, Unsigned, AssetKey;
    AssetKeyParts(policy, name);
    LowerHex(policy);
    UnsignedDecimal(qty, U64_LIMIT);
    HexRoundTrip(name, 32);
  }

  lemma RowParts(o: TxOut, policy: Bytes)
    ensures AssetsOf(RowJson(o, policy)) == AssetsJson(o, policy)
    ensures Coins(RowJson(o, policy)) == Some(o.coins)
    ensures SlotOf(RowJson(o, policy), "created_at") == Some(o.created)
    ensures SlotOf(RowJson(o, policy), "spent_at") == SpentSlot(o.spend)
  {
    hide Decimal, AssetsJson;
    UnsignedDecimal(o.coins, U128_LIMIT);
  }

  lemma AssetsVaultKeys(o: TxOut, policy: Bytes)
    ensures VaultKeys(AssetsJson(o, policy), HexEncode(policy)) == AssetsJson(o, policy).Keys
  {
    hide Decimal, HexEncode, IsVaultKey, AssetKey;
    forall k | k in AssetsJson(o, policy)
      ensures IsVaultKey(k, HexEncode(policy))
    {
      var n :| n in o.assets && k == AssetKey(policy, n);
      AssetMeaning(policy, n, 0);
    }
  }

  lemma RowBeacon(o: TxOut, policy: Bytes, beacon: Hash32)
    ensures HasBeacon(RowJson(o, policy), HexEncode(policy), beacon) <==> Locks(o, beacon)
  {
    hide Decimal, HexEncode, BeaconOfAsset, AssetKey, IsVaultKey, RowJson, VaultKeys, AssetsOf, AssetsJson;
    var row, vault, assets := RowJson(o, policy), HexEncode(policy), AssetsJson(o, policy);
    RowParts(o, policy);
    AssetsVaultKeys(o, policy);
    if Locks(o, beacon) {
      var k := AssetKey(policy, beacon);
      AssetMeaning(policy, beacon, 1);
      OneAsset(o, policy, beacon);
      assert k in AssetsOf(row) && VaultKeys(AssetsOf(row), vault) == {k}
             && BeaconOfAsset(k, AssetsOf(row)[k]) == Some(beacon);
    }
    if HasBeacon(row, vault, beacon) {
      var k :| k in AssetsOf(row) && VaultKeys(AssetsOf(row), vault) == {k}
               && BeaconOfAsset(k, AssetsOf(row)[k]) == Some(beacon);
      var n := AssetOfKey(o, policy, k);
      SingleAsset(o, policy, n);
      AssetMeaning(policy, n, o.assets[n]);
    }
  }

  lemma OneAsset(o: TxOut, policy: Bytes, n: Bytes)
    requires o.assets == map[n := 1]
    ensures AssetsJson(o, policy) == map[AssetKey(policy, n) := Str(Decimal(1))]
  {
    hide AssetKey, Decimal;
    assert n in o.assets && AssetKey(policy, n) in AssetsJson(o, policy);
  }

  lemma AssetOfKey(o: TxOut, policy: Bytes, k: string) returns (n: Bytes)
    requires k in AssetsJson(o, policy)
    ensures n in o.assets && k == AssetKey(policy, n) && AssetsJson(o, policy)[k] == Str(Decimal(o.assets[n]))
  {
    hide AssetKey, Decimal;
    AssetKeysInjective(policy);
    n :| n in o.assets && k == AssetKey(policy, n);
  }

  lemma SingleAsset(o: TxOut, policy: Bytes, n: Bytes)
    requires n in o.assets && AssetsJson(o, policy).Keys == {AssetKey(policy, n)}
    ensures o.assets == map[n := o.assets[n]]
  {
    hide AssetKey, Decimal;
    AssetKeysInjective(policy);
    forall m | m in o.assets
      ensures m == n
    {
      assert AssetKey(policy, m) in AssetsJson(o, policy).Keys;
    }
  }

  /** The candidate an output stands for. */
  predicate Yields(o: TxOut, c: Candidate) {
    Locks(o, c.beacon) && c == Candidate(c.beacon, o.created, SpentSlot(o.spend), o.coins)
  }

  lemma RowMeaning(o: TxOut, policy: Bytes, c: Candidate)
    ensures CandidateOf(RowJson(o, policy), HexEncode(policy)) == Some(c) <==> Yields(o, c)
  {
    hide HasBeacon, RowJson, HexEncode, SlotOf, Coins, Locks, CandidateOf;
    CandidateMeaning(RowJson(o, policy), HexEncode(policy), c);
    RowParts(o, policy);
    RowBeacon(o, policy, c.beacon);
    assert IsCandidate(RowJson(o, policy), HexEncode(policy), c) <==> Yields(o, c);
  }

  /** The SQL clause drops exactly the rows whose emitted `spent_at` the reduction reads as spent by then. */
  lemma SpentnessAgrees(o: TxOut, policy: Bytes, reference: u64)
    ensures SqlKeeps(o.spend, reference)
       <==> var s := SlotOf(RowJson(o, policy), "spent_at"); s.None? || s.value > reference
  {
    hide RowJson;
    RowParts(o, policy);
  }
}
