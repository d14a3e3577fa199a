/** A Cardano history, the db-sync view a node has of it, and the relational meaning of the vault query
    (`cogno-dbsync/src/dbsync.rs`). The main result: what a node past the reference reduces is the ledger's own
    largest lock per beacon, so it depends neither on the node nor on what happened after the reference. */
module Ledger {
  import opened Prelude
  import opened Text
  import opened Ordering
  import opened Vault
  import opened VaultQuery

  type OutRef = (Bytes, nat)

  /** One node's chain: at most one block per slot. */
  datatype History = History(blocks: map<u64, Hash32>, outs: map<OutRef, TxOut>)

  datatype View = View(tip: u64, blocks: map<u64, Hash32>, outs: map<OutRef, TxOut>)

  /** What a node synced to `tip` shows of a spend: later ones not at all, earlier ones perhaps unresolved. */
  predicate Shows(actual: Spend, tip: u64, shown: Spend) {
    match actual
    case Unspent => shown == Unspent
    case SpentAt(s) => if s <= tip then shown == actual || shown == SpentSlotUnknown else shown == Unspent
    case SpentSlotUnknown => false
  }

  predicate ShowsOut(actual: TxOut, tip: u64, shown: TxOut) {
    Shows(actual.spend, tip, shown.spend) && shown == actual.(spend := shown.spend)
  }

  /** A db-sync instance whose newest block is at `v.tip`. */
  ghost predicate IsView(h: History, v: View) {
    v.tip in h.blocks
    && v.blocks == (map s | s in h.blocks && s <= v.tip :: h.blocks[s])
    && (forall k :: k in v.outs <==> k in h.outs && h.outs[k].created <= v.tip)
    && forall k :: k in v.outs ==> ShowsOut(h.outs[k], v.tip, v.outs[k])
  }

  predicate SpentAsOf(s: Spend, reference: u64) {
    s.SpentAt? && s.slot <= reference
  }

  /** Two chains that may fork after the reference: the same blocks, outputs and spends up to it. */
  ghost predicate AgreeUpTo(h: History, h': History, reference: u64) {
    (forall s :: s <= reference ==> (s in h.blocks <==> s in h'.blocks))
    && (forall s :: s <= reference && s in h.blocks ==> h.blocks[s] == h'.blocks[s])
    && OutsWithin(h, h', reference) && OutsWithin(h', h, reference)
  }

  /** What `h` created by the reference `h'` created too, and spent by then alike. */
  ghost predicate OutsWithin(h: History, h': History, reference: u64) {
    forall k :: k in h.outs && h.outs[k].created <= reference ==>
      k in h'.outs && h'.outs[k] == h.outs[k].(spend := h'.outs[k].spend)
      && (SpentAsOf(h.outs[k].spend, reference) <==> SpentAsOf(h'.outs[k].spend, reference))
  }

  // ---------- the anchor ----------

  /** `ORDER BY slot_no DESC LIMIT 1` over the blocks at or under the reference. */
  ghost predicate IsAnchor(blocks: map<u64, Hash32>, reference: u64, anchor: Option<(u64, Hash32)>) {
    match anchor
    case None => forall s :: s in blocks ==> s > reference
    case Some((s, hash)) =>
      s in blocks && s <= reference && hash == blocks[s] && forall s' :: s' in blocks && s' <= reference ==> s' <= s
  }

  lemma AnchorAgrees(h: History, h': History, v: View, v': View, reference: u64,
                     a: Option<(u64, Hash32)>, a': Option<(u64, Hash32)>)
    requires AgreeUpTo(h, h', reference)
    requires IsView(h, v) && IsView(h', v') && v.tip >= reference && v'.tip >= reference
    requires IsAnchor(v.blocks, reference, a) && IsAnchor(v'.blocks, reference, a')
    ensures a == a'
  {
    hide OutsWithin, ShowsOut;
    assert forall s :: s <= reference ==> (s in v.blocks <==> s in v'.blocks);
    assert forall s :: s <= reference && s in v.blocks ==> v.blocks[s] == v'.blocks[s];
    if a.Some? && a'.Some? {
      assert a.value.0 == a'.value.0;
    }
  }

  // ---------- the query result ----------

  /** A query result, in any order. */
  ghost predicate VaultRows(v: View, reference: u64, policy: Bytes, rows: seq<Json>) {
    (forall row :: row in rows ==>
        exists k :: k in v.outs && Kept(v.outs[k], reference) && row == RowJson(v.outs[k], policy))
    && forall k :: k in v.outs && Kept(v.outs[k], reference) ==> RowJson(v.outs[k], policy) in rows
  }

  /** The candidates of a query result are those its kept outputs yield. */
  lemma RowsYield(v: View, reference: u64, policy: Bytes, rows: seq<Json>, c: Candidate)
    requires VaultRows(v, reference, policy, rows)
    ensures c in CandidatesOf(rows, HexEncode(policy))
       <==> exists k :: k in v.outs && Kept(v.outs[k], reference) && Yields(v.outs[k], c)
  {
    hide RowJson, HexEncode, CandidatesOf, CandidateOf, Kept, Yields;
    CandidatesMember(rows, HexEncode(policy), c);
    if row :| row in rows && CandidateOf(row, HexEncode(policy)) == Some(c) {
      var k :| k in v.outs && Kept(v.outs[k], reference) && row == RowJson(v.outs[k], policy);
      RowMeaning(v.outs[k], policy, c);
    }
    if k :| k in v.outs && Kept(v.outs[k], reference) && Yields(v.outs[k], c) {
      RowMeaning(v.outs[k], policy, c);
      assert RowJson(v.outs[k], policy) in rows;
    }
  }

  // ---------- the ledger's own answer ----------

  /** An output locks `coins` under `beacon` as of the reference. */
  predicate LockAt(o: TxOut, reference: u64, beacon: Bytes, coins: nat) {
    |beacon| == 32 && o.assets == map[beacon := 1] && o.created <= reference
    && (o.spend.SpentAt? ==> o.spend.slot > reference) && o.coins == coins > 0
  }

  ghost predicate HasLock(outs: map<OutRef, TxOut>, reference: u64, beacon: Bytes, coins: nat) {
    exists k :: k in outs && LockAt(outs[k], reference, beacon, coins)
  }

  /** The largest lock per beacon, straight from the outputs. */
  ghost predicate LedgerEntries(outs: map<OutRef, TxOut>, reference: u64, out: seq<(Bytes, nat)>) {
    Ascending(EntryKeys(out))
    && (forall i :: 0 <= i < |out| ==>
          HasLock(outs, reference, out[i].0, out[i].1)
          && forall c :: HasLock(outs, reference, out[i].0, c) ==> c <= out[i].1)
    && forall b, c :: HasLock(outs, reference, b, c) ==> Present(out, b)
  }

  /** The candidate a shown lock yields. */
  lemma LockToCandidate(v: View, reference: u64, policy: Bytes, rows: seq<Json>, b: Bytes, coins: nat)
    requires VaultRows(v, reference, policy, rows) && HasLock(v.outs, reference, b, coins)
    ensures exists c ::
              c in CandidatesOf(rows, HexEncode(policy)) && Locked(c, reference) && c.beacon == b && c.coins == coins
  {
    hide HexEncode, CandidatesOf, VaultRows;
    var k :| k in v.outs && LockAt(v.outs[k], reference, b, coins);
    var o := v.outs[k];
    assert b in o.assets;
    var c := Candidate(b, o.created, SpentSlot(o.spend), o.coins);
    assert Kept(o, reference) && Yields(o, c);
    RowsYield(v, reference, policy, rows, c);
    assert Locked(c, reference);
  }

  /** The shown lock a locked candidate comes from. */
  lemma CandidateToLock(v: View, reference: u64, policy: Bytes, rows: seq<Json>, c: Candidate)
    requires VaultRows(v, reference, policy, rows)
    requires c in CandidatesOf(rows, HexEncode(policy)) && Locked(c, reference)
    ensures HasLock(v.outs, reference, c.beacon, c.coins)
  {
    hide HexEncode, CandidatesOf, VaultRows;
    RowsYield(v, reference, policy, rows, c);
    var k :| k in v.outs && Kept(v.outs[k], reference) && Yields(v.outs[k], c);
    assert LockAt(v.outs[k], reference, c.beacon, c.coins);
  }

  /** Whatever a node reduces is the answer for the outputs it shows. */
  lemma ViewReduces(v: View, reference: u64, policy: Bytes, rows: seq<Json>, out: seq<(Bytes, nat)>)
    requires VaultRows(v, reference, policy, rows)
    requires Observes(out, CandidatesOf(rows, HexEncode(policy)), reference)
    ensures LedgerEntries(v.outs, reference, out)
  {
    hide VaultRows, Locked, HasLock, HexEncode, Ascending, EntryKeys;
    var cs := CandidatesOf(rows, HexEncode(policy));
    forall i | 0 <= i < |out|
      ensures HasLock(v.outs, reference, out[i].0, out[i].1)
      ensures forall c :: HasLock(v.outs, reference, out[i].0, c) ==> c <= out[i].1
    {
      assert IsLargest(cs, reference, out[i].0, out[i].1);
      var c :| c in cs && Locked(c, reference) && c.beacon == out[i].0 && c.coins == out[i].1;
      CandidateToLock(v, reference, policy, rows, c);
      forall coins | HasLock(v.outs, reference, out[i].0, coins)
        ensures coins <= out[i].1
      {
        LockToCandidate(v, reference, policy, rows, out[i].0, coins);
      }
    }
    forall b, coins | HasLock(v.outs, reference, b, coins)
      ensures Present(out, b)
    {
      LockToCandidate(v, reference, policy, rows, b, coins);
    }
  }

  // ---------- from the view to the chain ----------

  /** A node past the reference shows every lock that is there. */
  lemma LocksShown(h: History, v: View, reference: u64, b: Bytes, coins: nat)
    requires IsView(h, v) && v.tip >= reference && HasLock(h.outs, reference, b, coins)
    ensures HasLock(v.outs, reference, b, coins)
  {
    var k :| k in h.outs && LockAt(h.outs[k], reference, b, coins);
    assert k in v.outs && ShowsOut(h.outs[k], v.tip, v.outs[k]);
    assert LockAt(v.outs[k], reference, b, coins);
  }

  /** An unresolved spend that makes a spent output look locked. */
  ghost predicate Phantom(h: History, v: View, reference: u64, k: OutRef, b: Bytes, coins: nat) {
    k in h.outs && k in v.outs && v.outs[k].spend.SpentSlotUnknown? && SpentAsOf(h.outs[k].spend, reference)
    && LockAt(v.outs[k], reference, b, coins)
  }

  /** Under every phantom the chain really locks at least as much. */
  ghost predicate Harmless(h: History, v: View, reference: u64) {
    forall k, b, coins :: Phantom(h, v, reference, k, b, coins) ==>
      exists c :: HasLock(h.outs, reference, b, c) && c >= coins
  }

  lemma ShownLock(h: History, v: View, reference: u64, b: Bytes, coins: nat)
    requires IsView(h, v) && v.tip >= reference && HasLock(v.outs, reference, b, coins)
    ensures HasLock(h.outs, reference, b, coins) || exists k :: Phantom(h, v, reference, k, b, coins)
  {
    var k :| k in v.outs && LockAt(v.outs[k], reference, b, coins);
    assert k in h.outs && ShowsOut(h.outs[k], v.tip, v.outs[k]);
    assert LockAt(h.outs[k], reference, b, coins) || Phantom(h, v, reference, k, b, coins);
  }

  /** With harmless views, whatever a node past the reference reduces is the ledger's answer. */
  lemma ViewTellsTheLedger(h: History, v: View, reference: u64, policy: Bytes, rows: seq<Json>, out: seq<(Bytes, nat)>)
    requires IsView(h, v) && v.tip >= reference && VaultRows(v, reference, policy, rows) && Harmless(h, v, reference)
    requires Observes(out, CandidatesOf(rows, HexEncode(policy)), reference)
    ensures LedgerEntries(h.outs, reference, out)
  {
    hide IsView, VaultRows, Observes, CandidatesOf, HexEncode, LedgerEntries, Harmless;
    ViewReduces(v, reference, policy, rows, out);
    HarmlessTells(h, v, reference, out);
  }

  lemma HarmlessTells(h: History, v: View, reference: u64, out: seq<(Bytes, nat)>)
    requires IsView(h, v) && v.tip >= reference && Harmless(h, v, reference) && LedgerEntries(v.outs, reference, out)
    ensures LedgerEntries(h.outs, reference, out)
  {
    hide IsView, HasLock, Phantom, Ascending, EntryKeys;
    forall b, c | HasLock(h.outs, reference, b, c)
      ensures HasLock(v.outs, reference, b, c)
    {
      LocksShown(h, v, reference, b, c);
    }
    forall i | 0 <= i < |out|
      ensures HasLock(h.outs, reference, out[i].0, out[i].1)
    {
      ShownLock(h, v, reference, out[i].0, out[i].1);
      if k :| Phantom(h, v, reference, k, out[i].0, out[i].1) {
        var c :| HasLock(h.outs, reference, out[i].0, c) && c >= out[i].1;
      }
    }
  }

  /** A view's unresolved spends leave the entries right exactly when no phantom tops what the chain locks. */
  lemma UnresolvedExact(h: History, v: View, reference: u64, out: seq<(Bytes, nat)>, truth: seq<(Bytes, nat)>)
    requires IsView(h, v) && v.tip >= reference
    requires LedgerEntries(v.outs, reference, out) && LedgerEntries(h.outs, reference, truth)
    ensures out == truth <==> Harmless(h, v, reference)
  {
    if Harmless(h, v, reference) {
      hide IsView, LedgerEntries;
      HarmlessTells(h, v, reference, out);
      LedgerEntriesUnique(h.outs, reference, out, truth);
    }
    if out == truth {
      hide Ascending, EntryKeys;
      forall k, b, coins | Phantom(h, v, reference, k, b, coins)
        ensures exists c :: HasLock(h.outs, reference, b, c) && c >= coins
      {
        assert HasLock(v.outs, reference, b, coins);
        assert Present(out, b);
        var i :| 0 <= i < |out| && out[i].0 == b;
        assert HasLock(h.outs, reference, b, truth[i].1) && coins <= out[i].1;
      }
    }
  }

  /** Chains that fork only after the reference have the same locks, hence the same answer. */
  lemma ForkKeepsLocks(h: History, h': History, reference: u64, b: Bytes, coins: nat)
    requires OutsWithin(h, h', reference) && HasLock(h.outs, reference, b, coins)
    ensures HasLock(h'.outs, reference, b, coins)
  {
    var k :| k in h.outs && LockAt(h.outs[k], reference, b, coins);
    assert LockAt(h'.outs[k], reference, b, coins);
  }

  lemma ForkKeepsEntries(h: History, h': History, reference: u64, out: seq<(Bytes, nat)>)
    requires AgreeUpTo(h, h', reference) && LedgerEntries(h.outs, reference, out)
    ensures LedgerEntries(h'.outs, reference, out)
  {
    hide OutsWithin, HasLock, Ascending, EntryKeys;
    forall b, c
      ensures HasLock(h.outs, reference, b, c) <==> HasLock(h'.outs, reference, b, c)
    {
      if HasLock(h.outs, reference, b, c) {
        ForkKeepsLocks(h, h', reference, b, c);
      }
      if HasLock(h'.outs, reference, b, c) {
        ForkKeepsLocks(h', h, reference, b, c);
      }
    }
  }

  lemma LedgerKeyCovered(outs: map<OutRef, TxOut>, reference: u64, out: seq<(Bytes, nat)>, out': seq<(Bytes, nat)>,
                         k: Key)
    requires LedgerEntries(outs, reference, out) && LedgerEntries(outs, reference, out') && k in EntryKeys(out)
    ensures k in EntryKeys(out')
  {
    hide HasLock, Ascending;
    var i :| 0 <= i < |out| && EntryKeys(out)[i] == k;
    assert Present(out', out[i].0);
    hide LedgerEntries;
    PresentKey(out', out[i].0);
  }

  lemma LedgerEntriesUnique(outs: map<OutRef, TxOut>, reference: u64, out: seq<(Bytes, nat)>, out': seq<(Bytes, nat)>)
    requires LedgerEntries(outs, reference, out) && LedgerEntries(outs, reference, out')
    ensures out == out'
  {
    hide HasLock;
    forall k
      ensures k in EntryKeys(out) <==> k in EntryKeys(out')
    {
      if k in EntryKeys(out) {
        LedgerKeyCovered(outs, reference, out, out', k);
      }
      if k in EntryKeys(out') {
        LedgerKeyCovered(outs, reference, out', out, k);
      }
    }
    AscendingUnique(EntryKeys(out), EntryKeys(out'));
    forall i | 0 <= i < |out|
      ensures out[i] == out'[i]
    {
      assert EntryKeys(out)[i] == EntryKeys(out')[i];
    }
  }

  // ---------- the spentness pre-filter ----------

  /** The rows a query without the spentness clause would keep. */
  predicate Created(o: TxOut, reference: u64) {
    o.created <= reference && o.assets != map[]
  }

  ghost predicate UnfilteredRows(v: View, reference: u64, policy: Bytes, rows: seq<Json>) {
    (forall row :: row in rows ==>
       exists k :: k in v.outs && Created(v.outs[k], reference) && row == RowJson(v.outs[k], policy))
    && forall k :: k in v.outs && Created(v.outs[k], reference) ==> RowJson(v.outs[k], policy) in rows
  }

  predicate SpentBy(c: Candidate, reference: u64) {
    c.spent.Some? && c.spent.value <= reference
  }

  lemma UnfilteredYield(v: View, reference: u64, policy: Bytes, all: seq<Json>, c: Candidate)
    requires UnfilteredRows(v, reference, policy, all)
    ensures c in CandidatesOf(all, HexEncode(policy))
       <==> exists k :: k in v.outs && Created(v.outs[k], reference) && Yields(v.outs[k], c)
  {
    hide RowJson, HexEncode, CandidatesOf, CandidateOf, Created, Yields;
    CandidatesMember(all, HexEncode(policy), c);
    if row :| row in all && CandidateOf(row, HexEncode(policy)) == Some(c) {
      var k :| k in v.outs && Created(v.outs[k], reference) && row == RowJson(v.outs[k], policy);
      RowMeaning(v.outs[k], policy, c);
    }
    if k :| k in v.outs && Created(v.outs[k], reference) && Yields(v.outs[k], c) {
      RowMeaning(v.outs[k], policy, c);
      assert RowJson(v.outs[k], policy) in all;
    }
  }

  /** The pre-filter removes exactly the candidates spent by the reference. */
  lemma PrefilterDrops(v: View, reference: u64, policy: Bytes, rows: seq<Json>, all: seq<Json>, c: Candidate)
    requires VaultRows(v, reference, policy, rows) && UnfilteredRows(v, reference, policy, all)
    ensures c in CandidatesOf(rows, HexEncode(policy)) <==>
            c in CandidatesOf(all, HexEncode(policy)) && !SpentBy(c, reference)
  {
    hide VaultRows, UnfilteredRows, HexEncode, CandidatesOf;
    RowsYield(v, reference, policy, rows, c);
    UnfilteredYield(v, reference, policy, all, c);
    if k :| k in v.outs && Kept(v.outs[k], reference) && Yields(v.outs[k], c) {
      assert Created(v.outs[k], reference) && !SpentBy(c, reference);
    }
    if k :| k in v.outs && Created(v.outs[k], reference) && Yields(v.outs[k], c) && !SpentBy(c, reference) {
      assert Kept(v.outs[k], reference);
    }
  }

  /** The SQL pre-filter never changes the entries. */
  lemma PrefilterKeepsEntries(v: View, reference: u64, policy: Bytes, rows: seq<Json>, all: seq<Json>,
                              out: seq<(Bytes, nat)>, out': seq<(Bytes, nat)>)
    requires VaultRows(v, reference, policy, rows) && UnfilteredRows(v, reference, policy, all)
    requires Observes(out, CandidatesOf(rows, HexEncode(policy)), reference)
    requires Observes(out', CandidatesOf(all, HexEncode(policy)), reference)
    ensures out == out'
  {
    hide Observes, HexEncode, CandidatesOf, VaultRows, UnfilteredRows;
    var cs, ds := CandidatesOf(rows, HexEncode(policy)), CandidatesOf(all, HexEncode(policy));
    forall c | Locked(c, reference)
      ensures c in cs <==> c in ds
    {
      PrefilterDrops(v, reference, policy, rows, all, c);
    }
    ObservesUnique(out, out', cs, ds, reference);
  }
}
