/** The read and guard around the reduction (`node/src/service.rs`, `observe_for_parent`) and the consensus claim
    it serves: two nodes that do not abstain build the same observation. */
module Observation {
  import opened Prelude
  import opened Text
  import opened Ordering
  import opened Calidus
  import opened Vault
  import opened VaultQuery
  import opened Commitment
  import opened Ledger
  import opened Roles
  import opened RoleFields
  import opened RoleReduction
  import opened RoleLaws
  import opened CommitteeSql
  import opened CommitteeView

  /** `SLOT_DURATION / 1000`. */
  const SLOT_SECONDS := 6

  datatype Config = Config(shelleyUnix: u64, shelleySlot: u64, stability: u64, vaultPolicy: Bytes)

  /** The credentials bound and claimed on the chain itself, the same for every node. */
  datatype Claims = Claims(stake: seq<Hash28>, calidus: seq<Hash28>, committee: seq<Hash28>)

  datatype VaultRead = VaultRead(tipSlot: u64, anchor: Option<(u64, Hash32)>, matches: seq<Json>)

  datatype RoleRead = RoleRead(
    registrations: seq<Bytes>,
    activePools: seq<Hash28>,
    ownerPools: seq<(Hash28, Hash28)>,
    liveDreps: seq<Hash28>,
    drepStake: seq<(Hash28, nat)>,
    committee: CommitteeRead)

  /** What this node's db-sync answers; `None` is any failed read. `poolStake` is the table the scoped read filters. */
  datatype NodeReads = NodeReads(
    vault: Option<VaultRead>,
    stake: Option<seq<(Hash28, nat)>>,
    roles: Option<RoleRead>,
    poolStake: Option<seq<(Hash28, nat)>>)

  datatype Obs = Obs(
    slot: u64,
    blockHash: Hash32,
    commitment: Hash32,
    entries: seq<(Bytes, nat)>,
    stakeEntries: seq<(Bytes, nat)>,
    roleEntries: seq<RoleEntry>)

  datatype Landed = Landed(obs: Obs, tipSlot: u64, lag: u64)

  // ---------- the reference slot ----------

  /** `reference_slot`: checked arithmetic throughout. */
  function ReferenceSlot(parentUnix: u64, startUnix: u64, startSlot: u64, stability: u64): (r: Option<u64>)
    ensures r.Some? <==> parentUnix - startUnix >= stability && startSlot + (parentUnix - startUnix) < U64_LIMIT
    ensures r.Some? ==> r.value >= startSlot && r.value + stability == startSlot + (parentUnix - startUnix)
  {
    if parentUnix < startUnix then None else
    var elapsed := parentUnix - startUnix;
    if startSlot + elapsed >= U64_LIMIT then None else
    var slot := startSlot + elapsed;
    if slot < stability then None else
    var reference := slot - stability;
    if reference < startSlot then None else Some(reference)
  }

  function Saturate(n: nat): u64 {
    if n < U64_LIMIT then n else U64_LIMIT - 1
  }

  function ReferenceFor(cfg: Config, parentSlot: u64): Option<u64> {
    ReferenceSlot(Saturate(parentSlot * SLOT_SECONDS), cfg.shelleyUnix, cfg.shelleySlot, cfg.stability)
  }

  // ---------- canonical stake ----------

  method CanonicalStakeEntries(raw: seq<(Hash28, nat)>) returns (out: seq<(Bytes, nat)>)
    ensures EntriesOf(out, StakeMap(raw))
  {
    var m: map<Bytes, nat> := map[];
    for i := 0 to |raw|
      invariant m == StakeMap(raw[..i])
    {
      assert raw[..i + 1][..i] == raw[..i];
      m := m[raw[i].0 := raw[i].1];
    }
    assert raw[..|raw|] == raw;
    out := SortedEntries(m);
  }

  lemma EntriesKeys(out: seq<(Bytes, nat)>, m: map<Bytes, nat>, k: Key)
    requires EntriesOf(out, m)
    ensures k in EntryKeys(out) <==> exists b :: b in m && b == k
  {
    hide Ascending;
    if k in EntryKeys(out) {
      var i :| 0 <= i < |out| && EntryKeys(out)[i] == k;
      assert out[i].0 in m && out[i].0 == k;
    }
    if b :| b in m && b == k {
      assert Present(out, b);
      PresentKey(out, b);
    }
  }

  lemma EntriesUnique(a: seq<(Bytes, nat)>, b: seq<(Bytes, nat)>, m: map<Bytes, nat>)
    requires EntriesOf(a, m) && EntriesOf(b, m)
    ensures a == b
  {
    forall k
      ensures k in EntryKeys(a) <==> k in EntryKeys(b)
    {
      EntriesKeys(a, m, k);
      EntriesKeys(b, m, k);
    }
    AscendingUnique(EntryKeys(a), EntryKeys(b));
    forall i | 0 <= i < |a|
      ensures a[i] == b[i]
    {
      assert EntryKeys(a)[i] == EntryKeys(b)[i];
    }
  }

  lemma StakeMapOrderFree(a: seq<(Hash28, nat)>, b: seq<(Hash28, nat)>)
    requires SameStake(a, b)
    ensures StakeMap(a) == StakeMap(b)
  {
    hide StakeMap, DistinctIds;
    if a != b {
      SameMultiset(a, b);
      forall id
        ensures id in StakeMap(a) <==> id in StakeMap(b)
        ensures id in StakeMap(a) ==> StakeMap(a)[id] == StakeMap(b)[id]
      {
        StakeMapMeaning(a, id);
        StakeMapMeaning(b, id);
      }
    }
  }

  // ---------- one node's observation ----------

  function InputOf(node: RoleRead, claims: Claims, poolStake: seq<(Hash28, nat)>): RoleInput {
    RoleInput(node.registrations, node.activePools, node.ownerPools, claims.calidus, node.liveDreps,
              poolStake, node.drepStake, node.committee, claims.committee)
  }

  /** With no bound credential the stake is not read: the answer is empty, not a failure. */
  function StakeAnswer(claims: Claims, node: NodeReads): Option<seq<(Hash28, nat)>> {
    if claims.stake == [] then Some([]) else node.stake
  }

  /** The pools whose stake is read. */
  function PoolScope(c: Crypto, claims: Claims, roles: RoleRead): set<Bytes> {
    StakeScope(c, InputOf(roles, claims, []))
  }

  /** With no pool in scope the pool stake is not read either. */
  function PoolAnswer(c: Crypto, claims: Claims, roles: RoleRead, node: NodeReads): Option<seq<(Hash28, nat)>> {
    var scope := PoolScope(c, claims, roles);
    if scope == {} then Some([])
    else if node.poolStake.None? then None
    else Some(Scoped(node.poolStake.value, scope))
  }

  /** The guards: every read made succeeded, db-sync is past the reference, and an anchor exists at or under it. */
  predicate Lands(c: Crypto, cfg: Config, parentSlot: u64, claims: Claims, node: NodeReads) {
    var reference := ReferenceFor(cfg, parentSlot);
    reference.Some? && reference.value < 0x8000_0000_0000_0000
    && node.vault.Some? && node.vault.value.tipSlot >= reference.value && node.vault.value.anchor.Some?
    && StakeAnswer(claims, node).Some? && node.roles.Some?
    && PoolAnswer(c, claims, node.roles.value, node).Some?
  }

  /** What the node reduces its role rows with. */
  function RolesRead(c: Crypto, cfg: Config, parentSlot: u64, claims: Claims, node: NodeReads): RoleInput
    requires Lands(c, cfg, parentSlot, claims, node)
  {
    InputOf(node.roles.value, claims, PoolAnswer(c, claims, node.roles.value, node).value)
  }

  ghost predicate IsObservation(c: Crypto, cfg: Config, parentSlot: u64, claims: Claims, node: NodeReads, l: Landed)
    requires Lands(c, cfg, parentSlot, claims, node)
  {
    var vault, roles := node.vault.value, node.roles.value;
    var cs := CandidatesOf(vault.matches, Lower(HexEncode(cfg.vaultPolicy)));
    l.obs.slot == ReferenceFor(cfg, parentSlot).value
    && l.obs.blockHash == vault.anchor.value.1
    && Commits(c, cs, l.obs.commitment)
    && Observes(l.obs.entries, cs, l.obs.slot)
    && EntriesOf(l.obs.stakeEntries, StakeMap(StakeAnswer(claims, node).value))
    && IsCanonical(l.obs.roleEntries, RoleSet(c, RolesRead(c, cfg, parentSlot, claims, node)))
    && l.tipSlot == vault.tipSlot
    && l.lag == LagOf(l.obs.slot, cfg.stability, vault.tipSlot)
  }

  /** The commitment is over the sorted candidates. */
  ghost predicate Commits(c: Crypto, cs: seq<Candidate>, commitment: Hash32) {
    exists tuples ::
      SortedCandidates(tuples, cs) && Encodable(tuples) && commitment == c.blake256(CandidateBytes(tuples))
  }

  /** The scope of the stake read is immaterial: the same entries come from the whole table. */
  lemma ScopeImmaterial(c: Crypto, cfg: Config, parentSlot: u64, claims: Claims, node: NodeReads)
    requires Lands(c, cfg, parentSlot, claims, node) && node.poolStake.Some?
    ensures RoleSet(c, RolesRead(c, cfg, parentSlot, claims, node))
         == RoleSet(c, InputOf(node.roles.value, claims, node.poolStake.value))
  {
    hide RoleSet, ClaimedPools;
    var full := InputOf(node.roles.value, claims, node.poolStake.value);
    ScopeSuffices(c, full);
    if PoolScope(c, claims, node.roles.value) == {} {
      NothingScoped(node.poolStake.value);
    }
  }

  lemma {:induction false} NothingScoped(rows: seq<(Hash28, nat)>)
    ensures Scoped(rows, {}) == []
  {
    if rows != [] {
      NothingScoped(rows[..|rows| - 1]);
    }
  }

  // ---------- what lands, from the node's own rows ----------

  /** The node's rows and the chain's claims support the entry. */
  ghost predicate Backed(c: Crypto, claims: Claims, node: NodeReads, e: RoleEntry)
    requires node.roles.Some?
  {
    var rows := node.roles.value;
    match e.source
    case SpoCalidus =>
      e.id in rows.activePools && e.credential in claims.calidus && Wins(c, rows.registrations, e.id, e.credential)
      && node.poolStake.Some? && Stakes(node.poolStake.value, e.id, e.weight)
    case SpoOwner =>
      (e.credential, e.id) in rows.ownerPools && e.id in rows.activePools
      && node.poolStake.Some? && Stakes(node.poolStake.value, e.id, e.weight)
    case DRep =>
      e.credential == e.id && e.credential in rows.liveDreps && Stakes(rows.drepStake, e.id, e.weight)
    case Committee =>
      e.credential == e.id && e.credential in claims.committee && SomeServes(rows.committee, e.credential)
      && e.weight == 0
  }

  /** An entry weighed by pool stake names a pool whose stake was asked for. */
  lemma WeighedInScope(c: Crypto, input: RoleInput, e: RoleEntry)
    requires e in CalidusSet(c, input) || e in OwnerSet(input)
    ensures e.id in StakeScope(c, input)
  {
    hide Weight, VerifiedRegs, Best, ClaimedPools;
    if e in CalidusSet(c, input) {
      var vs := VerifiedRegs(c, input.registrations);
      var p :| p in input.activePools && CalidusEmits(input, vs, p)
               && e == CalidusEntry(input.poolStake, Best(vs, p).value);
      BestPool(vs, p);
      GateKeepsEmitters(c, input, p);
    }
  }

  lemma EntryInScope(c: Crypto, input: RoleInput, e: RoleEntry)
    requires Supported(c, input, e) && (e.source == SpoCalidus || e.source == SpoOwner)
    ensures e.id in StakeScope(c, input)
  {
    hide StakeScope, CalidusSet, OwnerSet, Stakes, Wins, SomeServes;
    CalidusMeaning(c, input, e);
    OwnerMeaning(input, e);
    WeighedInScope(c, input, e);
  }

  /** The reduced entries are exactly those the node's rows and the claims support. */
  lemma ReducedAreBacked(c: Crypto, cfg: Config, parentSlot: u64, claims: Claims, node: NodeReads, e: RoleEntry)
    requires Lands(c, cfg, parentSlot, claims, node)
    ensures e in RoleSet(c, RolesRead(c, cfg, parentSlot, claims, node)) <==> Backed(c, claims, node, e)
  {
    hide RoleSet, Stakes, Wins, SomeServes, StakeScope, Scoped, ReferenceSlot;
    RoleSetMeaning(c, RolesRead(c, cfg, parentSlot, claims, node), e);
    if node.poolStake.Some? {
      ScopeImmaterial(c, cfg, parentSlot, claims, node);
      RoleSetMeaning(c, InputOf(node.roles.value, claims, node.poolStake.value), e);
    } else {
      var input := InputOf(node.roles.value, claims, []);
      if Supported(c, input, e) && (e.source == SpoCalidus || e.source == SpoOwner) {
        EntryInScope(c, input, e);
      }
    }
  }

  function LagOf(slot: u64, stability: u64, tip: u64): u64 {
    var current := Saturate(slot + stability);
    if current < tip then 0 else current - tip
  }

  method ObserveForParent(c: Crypto, cfg: Config, parentSlot: u64, claims: Claims, node: NodeReads)
    returns (out: Option<Landed>)
    requires node.vault.Some? ==> |node.vault.value.matches| < U32_LIMIT
    ensures out.Some? <==> Lands(c, cfg, parentSlot, claims, node)
    ensures out.Some? ==> IsObservation(c, cfg, parentSlot, claims, node, out.value)
    ensures out.Some? ==> forall e :: e in out.value.obs.roleEntries <==> Backed(c, claims, node, e)
  {
    hide Lower, RoleSet, IsCanonical, EntriesOf, Observes, Commits, CandidatesOf, ClaimedPools, ReferenceSlot, LagOf;
    var reference := ReferenceFor(cfg, parentSlot);
    if reference.None? {
      return None;
    }
    if reference.value >= 0x8000_0000_0000_0000 || node.vault.None? {
      return None;
    }
    var vault := node.vault.value;
    if vault.tipSlot < reference.value {
      return None;
    }
    if vault.anchor.None? {
      return None;
    }
    var stake := if claims.stake == [] then Some([]) else node.stake;
    if stake.None? {
      return None;
    }
    if node.roles.None? {
      return None;
    }
    var roles := node.roles.value;
    var poolIds: set<Bytes> := set o | o in roles.ownerPools :: o.1;
    poolIds := poolIds + ClaimedPools(c, roles.registrations, claims.calidus, roles.activePools);
    var poolStake := [];
    if poolIds != {} {
      if node.poolStake.None? {
        return None;
      }
      poolStake := Scoped(node.poolStake.value, poolIds);
    }
    var input := InputOf(roles, claims, poolStake);
    var roleEntries := ReduceRoleObservation(c, input);
    var obs := BuildObservation(c, cfg, reference.value, vault, stake.value, roleEntries);
    CanonicalIdempotent(roleEntries, obs.roleEntries, RoleSet(c, input));
    out := Some(Landed(obs, vault.tipSlot, LagOf(reference.value, cfg.stability, vault.tipSlot)));
    AllBacked(c, cfg, parentSlot, claims, node, obs.roleEntries);
  }

  lemma AllBacked(c: Crypto, cfg: Config, parentSlot: u64, claims: Claims, node: NodeReads, out: seq<RoleEntry>)
    requires Lands(c, cfg, parentSlot, claims, node)
    requires IsCanonical(out, RoleSet(c, RolesRead(c, cfg, parentSlot, claims, node)))
    ensures forall e :: e in out <==> Backed(c, claims, node, e)
  {
    hide RoleSet, Backed, RolesRead, Ascending;
    forall e
      ensures e in RoleSet(c, RolesRead(c, cfg, parentSlot, claims, node)) <==> Backed(c, claims, node, e)
    {
      ReducedAreBacked(c, cfg, parentSlot, claims, node, e);
    }
  }

  method BuildObservation(c: Crypto, cfg: Config, slot: u64, vault: VaultRead, stake: seq<(Hash28, nat)>,
                          roles: seq<RoleEntry>)
    returns (obs: Obs)
    requires vault.anchor.Some? && |vault.matches| < U32_LIMIT
    ensures var cs := CandidatesOf(vault.matches, Lower(HexEncode(cfg.vaultPolicy)));
            obs.slot == slot && obs.blockHash == vault.anchor.value.1
            && Commits(c, cs, obs.commitment)
            && Observes(obs.entries, cs, slot)
    ensures EntriesOf(obs.stakeEntries, StakeMap(stake))
    ensures IsCanonical(obs.roleEntries, Elements(roles))
  {
    hide Lower, IsCanonical, EntriesOf, Observes, SortedCandidates, CandidatesOf, CandidateBytes, Encodable;
    var vaultHash := HexEncode(cfg.vaultPolicy);
    var tuples := CandidateTuples(vault.matches, vaultHash);
    TuplesEncodable(vault.matches, Lower(vaultHash), tuples);
    var entries := ObserveAsOf(vault.matches, vaultHash, slot);
    var stakeEntries := CanonicalStakeEntries(stake);
    var roleEntries := CanonicalRoleEntries(roles);
    obs := Obs(slot, vault.anchor.value.1, c.blake256(CandidateBytes(tuples)), entries, stakeEntries, roleEntries);
  }

  lemma {:induction false} CandidatesAtMostRows(rows: seq<Json>, vault: string)
    ensures |CandidatesOf(rows, vault)| <= |rows|
  {
    if rows != [] {
      CandidatesAtMostRows(rows[..|rows| - 1], vault);
    }
  }

  lemma TuplesEncodable(rows: seq<Json>, vault: string, tuples: seq<Candidate>)
    requires |rows| < U32_LIMIT && SortedCandidates(tuples, CandidatesOf(rows, vault))
    ensures Encodable(tuples)
  {
    hide CandidatesOf, Ordered;
    var cs := CandidatesOf(rows, vault);
    SameMultiset(tuples, cs);
    CandidatesAtMostRows(rows, vault);
    CandidateCoinsBounded(rows, vault);
    forall i | 0 <= i < |tuples|
      ensures tuples[i].coins < U128_LIMIT
    {
      assert tuples[i] in tuples;
    }
  }

  // ---------- agreement ----------

  /** One db-sync instance: its chain and view of the vault, and its committee tables with its own row and
      transaction ids. */
  datatype Instance = Instance(history: History, view: View, chain: Chain, ids: seq<nat>, tables: Tables)

  /** The node's vault and committee answers are those of this instance, whose unresolved spends do no harm. */
  ghost predicate ReadsInstance(db: Instance, cfg: Config, reference: u64, claims: Claims, node: NodeReads) {
    node.vault.Some? && node.roles.Some?
    && IsView(db.history, db.view) && Harmless(db.history, db.view, reference)
    && node.vault.value.tipSlot == db.view.tip && IsAnchor(db.view.blocks, reference, node.vault.value.anchor)
    && VaultRows(db.view, reference, cfg.vaultPolicy, node.vault.value.matches)
    && Answers(db.chain, db.ids, reference, db.tables, claims.committee, node.roles.value.committee)
  }

  /** The instances may follow different forks after the reference. */
  ghost predicate SameBefore(db: Instance, db': Instance, reference: u64) {
    AgreeUpTo(db.history, db'.history, reference) && SameUpTo(db.chain, db'.chain, reference)
  }

  /** The other settled rows, each node's in its own order. */
  ghost predicate SameSettledRows(c: Crypto, cfg: Config, parentSlot: u64, claims: Claims, a: NodeReads, b: NodeReads)
    requires Lands(c, cfg, parentSlot, claims, a) && Lands(c, cfg, parentSlot, claims, b)
  {
    SameStake(StakeAnswer(claims, a).value, StakeAnswer(claims, b).value)
    && SameRowsBut(c, RolesRead(c, cfg, parentSlot, claims, a), RolesRead(c, cfg, parentSlot, claims, b))
  }

  /** A node behind the reference abstains. */
  lemma BehindAbstains(c: Crypto, cfg: Config, parentSlot: u64, claims: Claims, db: Instance, node: NodeReads)
    requires ReferenceFor(cfg, parentSlot).Some?
    requires ReadsInstance(db, cfg, ReferenceFor(cfg, parentSlot).value, claims, node)
    requires db.view.tip < ReferenceFor(cfg, parentSlot).value
    ensures !Lands(c, cfg, parentSlot, claims, node)
  {
  }

  /** A landed observation's vault entries are the ledger's own answer. */
  lemma LandedTellsTheLedger(c: Crypto, cfg: Config, parentSlot: u64, claims: Claims, db: Instance,
                             node: NodeReads, l: Landed)
    requires Lands(c, cfg, parentSlot, claims, node) && IsObservation(c, cfg, parentSlot, claims, node, l)
    requires ReadsInstance(db, cfg, l.obs.slot, claims, node)
    ensures LedgerEntries(db.history.outs, l.obs.slot, l.obs.entries)
  {
    hide IsView, VaultRows, Observes, LedgerEntries, RoleSet, EntriesOf, IsCanonical, Commits, Harmless, Answers;
    hide PoolAnswer, StakeAnswer, IsAnchor;
    LowerHex(cfg.vaultPolicy);
    ViewTellsTheLedger(db.history, db.view, l.obs.slot, cfg.vaultPolicy, node.vault.value.matches, l.obs.entries);
  }

  /** The vault half: the same reference, anchor and entries. */
  lemma VaultAgrees(c: Crypto, cfg: Config, parentSlot: u64, claims: Claims, db: Instance, db': Instance,
                    node: NodeReads, node': NodeReads, l: Landed, l': Landed)
    requires Lands(c, cfg, parentSlot, claims, node) && IsObservation(c, cfg, parentSlot, claims, node, l)
    requires Lands(c, cfg, parentSlot, claims, node') && IsObservation(c, cfg, parentSlot, claims, node', l')
    requires ReadsInstance(db, cfg, l.obs.slot, claims, node) && ReadsInstance(db', cfg, l'.obs.slot, claims, node')
    requires AgreeUpTo(db.history, db'.history, l.obs.slot)
    ensures l.obs.slot == l'.obs.slot && l.obs.blockHash == l'.obs.blockHash && l.obs.entries == l'.obs.entries
  {
    hide IsView, VaultRows, Observes, LedgerEntries, RoleSet, EntriesOf, IsCanonical, Commits, Harmless, Answers;
    hide PoolAnswer, StakeAnswer, IsAnchor, AgreeUpTo;
    var slot := l.obs.slot;
    AnchorAgrees(db.history, db'.history, db.view, db'.view, slot, node.vault.value.anchor, node'.vault.value.anchor);
    LandedTellsTheLedger(c, cfg, parentSlot, claims, db, node, l);
    LandedTellsTheLedger(c, cfg, parentSlot, claims, db', node', l');
    ForkKeepsEntries(db.history, db'.history, slot, l.obs.entries);
    LedgerEntriesUnique(db'.history.outs, slot, l.obs.entries, l'.obs.entries);
  }

  /** The role half, with each instance's own committee tables. */
  lemma RolesAgree(c: Crypto, cfg: Config, parentSlot: u64, claims: Claims, db: Instance, db': Instance,
                   node: NodeReads, node': NodeReads, l: Landed, l': Landed, reference: u64)
    requires Lands(c, cfg, parentSlot, claims, node) && IsObservation(c, cfg, parentSlot, claims, node, l)
    requires Lands(c, cfg, parentSlot, claims, node') && IsObservation(c, cfg, parentSlot, claims, node', l')
    requires ReadsInstance(db, cfg, reference, claims, node) && ReadsInstance(db', cfg, reference, claims, node')
    requires SameBefore(db, db', reference) && SameSettledRows(c, cfg, parentSlot, claims, node, node')
    ensures l.obs.stakeEntries == l'.obs.stakeEntries && l.obs.roleEntries == l'.obs.roleEntries
  {
    hide IsView, VaultRows, Observes, Commits, Harmless, IsAnchor, AgreeUpTo, SameUpTo, Answers;
    hide RoleSet, EntriesOf, IsCanonical, SameRowsBut, SameStake, SameCommittee, PoolAnswer, StakeAnswer;
    StakeMapOrderFree(StakeAnswer(claims, node).value, StakeAnswer(claims, node').value);
    EntriesUnique(l.obs.stakeEntries, l'.obs.stakeEntries, StakeMap(StakeAnswer(claims, node).value));
    AnswersAgree(db.chain, db'.chain, db.ids, db'.ids, reference, db.tables, db'.tables, claims.committee,
                 node.roles.value.committee, node'.roles.value.committee);
    RolesOrderFree(c, RolesRead(c, cfg, parentSlot, claims, node), RolesRead(c, cfg, parentSlot, claims, node'),
                   l.obs.roleEntries, l'.obs.roleEntries);
  }

  /** The consensus claim: two nodes that both land build the same observation, commitment aside. */
  lemma TwoNodesAgree(c: Crypto, cfg: Config, parentSlot: u64, claims: Claims, db: Instance, db': Instance,
                      node: NodeReads, node': NodeReads, l: Landed, l': Landed)
    requires Lands(c, cfg, parentSlot, claims, node) && IsObservation(c, cfg, parentSlot, claims, node, l)
    requires Lands(c, cfg, parentSlot, claims, node') && IsObservation(c, cfg, parentSlot, claims, node', l')
    requires ReadsInstance(db, cfg, l.obs.slot, claims, node) && ReadsInstance(db', cfg, l'.obs.slot, claims, node')
    requires SameBefore(db, db', l.obs.slot) && SameSettledRows(c, cfg, parentSlot, claims, node, node')
    ensures l'.obs.(commitment := l.obs.commitment) == l.obs
  {
    hide Lands, IsObservation, ReadsInstance, AgreeUpTo, SameUpTo, SameSettledRows;
    VaultAgrees(c, cfg, parentSlot, claims, db, db', node, node', l, l');
    RolesAgree(c, cfg, parentSlot, claims, db, db', node, node', l, l', l.obs.slot);
  }

  /** The commitment carries no such guarantee: one output spent by the reference makes the pre-filter move it. */
  lemma PrefilterMovesCommitment(v: View, reference: u64, policy: Bytes, rows: seq<Json>, all: seq<Json>, c: Candidate,
                                 tuples: seq<Candidate>, tuples': seq<Candidate>)
    requires VaultRows(v, reference, policy, rows) && UnfilteredRows(v, reference, policy, all)
    requires c in CandidatesOf(all, HexEncode(policy)) && SpentBy(c, reference)
    requires SortedCandidates(tuples, CandidatesOf(rows, HexEncode(policy)))
    requires SortedCandidates(tuples', CandidatesOf(all, HexEncode(policy)))
    requires Encodable(tuples) && Encodable(tuples')
    ensures CandidateBytes(tuples) != CandidateBytes(tuples')
  {
    hide VaultRows, UnfilteredRows, CandidatesOf, HexEncode, CandidateBytes, Encodable;
    PrefilterDrops(v, reference, policy, rows, all, c);
    SortedSameMembers(tuples, CandidatesOf(rows, HexEncode(policy)), c);
    SortedSameMembers(tuples', CandidatesOf(all, HexEncode(policy)), c);
    if CandidateBytes(tuples) == CandidateBytes(tuples') {
      CandidateBytesInjective(tuples, tuples');
      assert false;
    }
  }

  /** On the landed path the lag is how far db-sync trails the current Cardano slot, within the stability window. */
  lemma LagBounded(c: Crypto, cfg: Config, parentSlot: u64, claims: Claims, node: NodeReads, l: Landed)
    requires Lands(c, cfg, parentSlot, claims, node) && IsObservation(c, cfg, parentSlot, claims, node, l)
    ensures l.lag <= cfg.stability
    ensures var current := cfg.shelleySlot + (Saturate(parentSlot * SLOT_SECONDS) - cfg.shelleyUnix);
            l.lag == if l.tipSlot < current then current - l.tipSlot else 0
  {
    hide Observes, RoleSet, EntriesOf, IsCanonical, Commits, CandidatesOf, PoolAnswer, StakeAnswer;
  }

  /** The parent's time: six seconds a slot, held at the greatest 64-bit value. */
  function ParentUnix(parentSlot: u64): u64 {
    if 6 * parentSlot <= 0xffff_ffff_ffff_ffff then 6 * parentSlot else 0xffff_ffff_ffff_ffff
  }

  /** The reference trails the Cardano slot of the parent's time by the stability window, inside Shelley. */
  ghost predicate Trails(cfg: Config, parentSlot: u64, reference: u64) {
    ParentUnix(parentSlot) >= cfg.shelleyUnix
    && reference + cfg.stability == cfg.shelleySlot + ParentUnix(parentSlot) - cfg.shelleyUnix
    && reference + cfg.stability <= 0xffff_ffff_ffff_ffff
    && cfg.shelleySlot <= reference
  }

  lemma ReferenceExact(cfg: Config, parentSlot: u64, reference: u64)
    ensures ReferenceFor(cfg, parentSlot) == Some(reference) <==> Trails(cfg, parentSlot, reference)
  {
    assert Saturate(parentSlot * SLOT_SECONDS) == ParentUnix(parentSlot);
  }

  /** The pool stake need not be read: no owner row, no parseable registration of a claimed key on an active pool. */
  ghost predicate NoPoolNeeded(c: Crypto, claims: Claims, rows: RoleRead) {
    rows.ownerPools == [] && forall b :: b in rows.registrations ==> !Claimed(c, claims, rows, b)
  }

  predicate Claimed(c: Crypto, claims: Claims, rows: RoleRead, b: Bytes) {
    var r := ParseRegistration(c, b);
    r.Ok? && r.value.keyHash in claims.calidus && r.value.poolId in rows.activePools
  }

  lemma ScopeEmpty(c: Crypto, claims: Claims, rows: RoleRead)
    ensures PoolScope(c, claims, rows) == {} <==> NoPoolNeeded(c, claims, rows)
  {
    hide ParseRegistration;
    var scope := PoolScope(c, claims, rows);
    if !NoPoolNeeded(c, claims, rows) {
      if rows.ownerPools != [] {
        assert rows.ownerPools[0].1 in scope;
      } else {
        var b :| b in rows.registrations && Claimed(c, claims, rows, b);
        assert ParseRegistration(c, b).value.poolId in scope;
      }
    }
    if scope != {} && rows.ownerPools == [] {
      var p :| p in scope;
      assert exists b :: b in rows.registrations && Claimed(c, claims, rows, b);
    }
  }

  /** The node lands exactly when nothing it needs is missing. */
  lemma LandsExact(c: Crypto, cfg: Config, parentSlot: u64, claims: Claims, node: NodeReads)
    ensures Lands(c, cfg, parentSlot, claims, node) <==>
            node.vault.Some? && node.vault.value.anchor.Some?
            && (exists reference: u64 :: Trails(cfg, parentSlot, reference)
                                         && reference <= 0x7fff_ffff_ffff_ffff && reference <= node.vault.value.tipSlot)
            && (claims.stake == [] || node.stake.Some?)
            && node.roles.Some? && (node.poolStake.Some? || NoPoolNeeded(c, claims, node.roles.value))
  {
    hide ReferenceFor, Trails, PoolScope, NoPoolNeeded, Scoped;
    forall reference: u64
      ensures ReferenceFor(cfg, parentSlot) == Some(reference) <==> Trails(cfg, parentSlot, reference)
    {
      ReferenceExact(cfg, parentSlot, reference);
    }
    if node.roles.Some? {
      ScopeEmpty(c, claims, node.roles.value);
    }
  }

  /** A landed observation's slot, block and lag. */
  lemma LandedHeader(c: Crypto, cfg: Config, parentSlot: u64, claims: Claims, node: NodeReads, l: Landed)
    requires Lands(c, cfg, parentSlot, claims, node) && IsObservation(c, cfg, parentSlot, claims, node, l)
    ensures Trails(cfg, parentSlot, l.obs.slot)
    ensures l.obs.blockHash == node.vault.value.anchor.value.1 && l.tipSlot == node.vault.value.tipSlot
    ensures l.lag == if l.tipSlot < l.obs.slot + cfg.stability then l.obs.slot + cfg.stability - l.tipSlot else 0
  {
    hide Observes, RoleSet, IsCanonical, Commits, CandidatesOf, PoolAnswer, StakeAnswer, ReferenceFor, EntriesOf;
    ReferenceExact(cfg, parentSlot, l.obs.slot);
  }

  /** A landed observation's stake: each id's last row, if stake was asked for. */
  lemma LandedStake(c: Crypto, cfg: Config, parentSlot: u64, claims: Claims, node: NodeReads, l: Landed,
                    id: Bytes, w: nat)
    requires Lands(c, cfg, parentSlot, claims, node) && IsObservation(c, cfg, parentSlot, claims, node, l)
    ensures (id, w) in l.obs.stakeEntries <==>
            claims.stake != [] && node.stake.Some? && LastRow(node.stake.value, id, w)
  {
    hide Observes, RoleSet, IsCanonical, Commits, CandidatesOf, PoolAnswer, ReferenceFor, EntriesOf, LastRow;
    var rows := StakeAnswer(claims, node).value;
    EntryIn(l.obs.stakeEntries, StakeMap(rows), id, w);
    LastRowMeaning(rows, id, w);
    NoLastRow(id, w);
  }

  lemma NoLastRow(id: Bytes, w: nat)
    ensures !LastRow([], id, w)
  {
  }

  lemma EntryIn(out: seq<(Bytes, nat)>, m: map<Bytes, nat>, id: Bytes, w: nat)
    requires EntriesOf(out, m)
    ensures (id, w) in out <==> id in m && m[id] == w
  {
    hide Ascending;
    if id in m {
      assert Present(out, id);
    }
  }
}
