/** The role reduction of `cogno-dbsync/src/reduction.rs`: what each arm emits, declaratively. */
module Roles {
  import opened Prelude
  import opened Ordering
  import opened Calidus

  datatype Source = SpoCalidus | SpoOwner | DRep | Committee

  datatype RoleEntry = RoleEntry(source: Source, credential: Hash28, id: Hash28, weight: nat)

  /** `(tx.id, cert_index)`: where a certificate sits in Cardano's order. */
  datatype CertOrder = CertOrder(tx: nat, cert: nat)

  predicate Older(a: CertOrder, b: CertOrder) {
    a.tx < b.tx || (a.tx == b.tx && a.cert < b.cert)
  }

  datatype CommitteeMember = CommitteeMember(cold: Hash28, isScript: bool, expirationEpoch: nat) {
    /** A term runs through its expiration epoch. */
    predicate InTermAt(epoch: nat) {
      epoch <= expirationEpoch
    }
  }

  datatype CommitteeRegistration = CommitteeRegistration(cold: Hash28, hot: Hash28, hotIsScript: bool, order: CertOrder)

  datatype CommitteeDeregistration = CommitteeDeregistration(cold: Hash28, order: CertOrder)

  datatype CommitteeRead = CommitteeRead(
    epoch: nat,
    members: seq<CommitteeMember>,
    registrations: seq<CommitteeRegistration>,
    deregistrations: seq<CommitteeDeregistration>)

  /** The arguments of `reduce_role_observation`. */
  datatype RoleInput = RoleInput(
    registrations: seq<Bytes>,
    activePools: seq<Hash28>,
    ownerPools: seq<(Hash28, Hash28)>,
    claimedCalidus: seq<Hash28>,
    liveDreps: seq<Hash28>,
    poolStake: seq<(Hash28, nat)>,
    drepStake: seq<(Hash28, nat)>,
    committee: CommitteeRead,
    claimedCommittee: seq<Hash28>)

  // ---------- weights ----------

  /** `iter().collect::<BTreeMap>()`: the last row of an id wins. */
  function StakeMap(rows: seq<(Hash28, nat)>): map<Bytes, nat> {
    if rows == [] then map[] else StakeMap(rows[..|rows| - 1])[rows[|rows| - 1].0 := rows[|rows| - 1].1]
  }

  function Weight(rows: seq<(Hash28, nat)>, id: Bytes): nat {
    if id in StakeMap(rows) then StakeMap(rows)[id] else 0
  }

  // ---------- the Calidus arm ----------

  /** The registrations that verify, in the order read. */
  function VerifiedRegs(c: Crypto, regs: seq<Bytes>): seq<Registration> {
    if regs == [] then [] else
    var r := VerifyRegistration(c, regs[|regs| - 1]);
    VerifiedRegs(c, regs[..|regs| - 1]) + if r.Ok? then [r.value] else []
  }

  /** Highest nonce wins; among equals the earliest. */
  function Best(vs: seq<Registration>, pool: Bytes): (r: Option<Registration>)
    ensures r.Some? ==> r.value in vs && r.value.poolId == pool
  {
    if vs == [] then None else
    var last, prior := vs[|vs| - 1], Best(vs[..|vs| - 1], pool);
    if last.poolId == pool && (prior.None? || last.nonce > prior.value.nonce) then Some(last) else prior
  }

  /** Registration `i` is its pool's earliest with the highest nonce. */
  ghost predicate IsWinner(vs: seq<Registration>, pool: Bytes, i: int) {
    0 <= i < |vs| && vs[i].poolId == pool
    && forall j :: 0 <= j < |vs| && vs[j].poolId == pool ==>
                     vs[j].nonce < vs[i].nonce || (vs[j].nonce == vs[i].nonce && i <= j)
  }

  /** `claimed_calidus_pools`: parse-only, live pools with any registration of a claimed key. */
  function ClaimedPools(c: Crypto, regs: seq<Bytes>, claimed: seq<Hash28>, active: seq<Hash28>): set<Bytes> {
    set b | b in regs && ParseRegistration(c, b).Ok? && ParseRegistration(c, b).value.keyHash in claimed
            && ParseRegistration(c, b).value.poolId in active :: ParseRegistration(c, b).value.poolId
  }

  function CalidusEntry(rows: seq<(Hash28, nat)>, r: Registration): RoleEntry {
    RoleEntry(SpoCalidus, r.keyHash, r.poolId, Weight(rows, r.poolId))
  }

  /** The ungated specification: per active pool, the best of all that verify, if its key is claimed. */
  predicate CalidusEmits(input: RoleInput, vs: seq<Registration>, pool: Bytes) {
    pool in input.activePools && Best(vs, pool).Some? && Best(vs, pool).value.keyHash in input.claimedCalidus
  }

  function CalidusSet(c: Crypto, input: RoleInput): set<RoleEntry> {
    var vs := VerifiedRegs(c, input.registrations);
    set p | p in input.activePools && CalidusEmits(input, vs, p) :: CalidusEntry(input.poolStake, Best(vs, p).value)
  }

  // ---------- the owner and dRep arms ----------

  function OwnerEntry(rows: seq<(Hash28, nat)>, owner: (Hash28, Hash28)): RoleEntry {
    RoleEntry(SpoOwner, owner.0, owner.1, Weight(rows, owner.1))
  }

  function OwnerSet(input: RoleInput): set<RoleEntry> {
    set o | o in input.ownerPools && o.1 in input.activePools :: OwnerEntry(input.poolStake, o)
  }

  function DrepEntry(rows: seq<(Hash28, nat)>, id: Hash28): RoleEntry {
    RoleEntry(DRep, id, id, Weight(rows, id))
  }

  function DrepSet(input: RoleInput): set<RoleEntry> {
    set d | d in input.liveDreps :: DrepEntry(input.drepStake, d)
  }

  // ---------- the committee arm ----------

  ghost predicate Seated(members: seq<CommitteeMember>, cold: Bytes) {
    exists m :: m in members && m.cold == cold
  }

  /** In term under every row of the credential, that is, at its minimum expiry. */
  ghost predicate InTerm(cc: CommitteeRead, cold: Bytes) {
    forall m :: m in cc.members && m.cold == cold ==> m.InTermAt(cc.epoch)
  }

  /** The total order that picks the newest registration: `(order, hot, script)`. */
  function RegKey(r: CommitteeRegistration): Key {
    [r.order.tx, r.order.cert] + r.hot + [if r.hotIsScript then 1 else 0]
  }

  ghost predicate Newest(regs: seq<CommitteeRegistration>, r: CommitteeRegistration) {
    r in regs && forall r' :: r' in regs && r'.cold == r.cold ==> !Less(RegKey(r), RegKey(r'))
  }

  ghost predicate Withdrawn(deregs: seq<CommitteeDeregistration>, r: CommitteeRegistration) {
    exists d :: d in deregs && d.cold == r.cold && Older(r.order, d.order)
  }

  /** A registration that makes its hot key a badge, claims aside. */
  ghost predicate Badges(cc: CommitteeRead, r: CommitteeRegistration) {
    Seated(cc.members, r.cold) && InTerm(cc, r.cold) && Newest(cc.registrations, r)
    && !r.hotIsScript && !Withdrawn(cc.deregistrations, r)
  }

  function CommitteeEntry(hot: Hash28): RoleEntry {
    RoleEntry(Committee, hot, hot, 0)
  }

  ghost function CommitteeSet(cc: CommitteeRead, claimed: seq<Hash28>): set<RoleEntry> {
    set r | r in cc.registrations && Badges(cc, r) && r.hot in claimed :: CommitteeEntry(r.hot)
  }

  // ---------- all four arms, canonically ordered ----------

  ghost function RoleSet(c: Crypto, input: RoleInput): set<RoleEntry> {
    CalidusSet(c, input) + OwnerSet(input) + DrepSet(input) + CommitteeSet(input.committee, input.claimedCommittee)
  }

  function SourceIndex(s: Source): nat {
    match s
    case SpoCalidus => 0
    case SpoOwner => 1
    case DRep => 2
    case Committee => 3
  }

  /** The derived order of `RoleEntry`: source, credential, id, weight. */
  function RoleKey(e: RoleEntry): Key {
    [SourceIndex(e.source)] + e.credential + e.id + [e.weight]
  }

  function RoleKeys(es: seq<RoleEntry>): (keys: seq<Key>)
    ensures |keys| == |es| && forall i :: 0 <= i < |es| ==> keys[i] == RoleKey(es[i])
  {
    seq(|es|, i requires 0 <= i < |es| => RoleKey(es[i]))
  }

  lemma RoleKeyInjective(a: RoleEntry, b: RoleEntry)
    requires RoleKey(a) == RoleKey(b)
    ensures a == b
  {
    var x, y := RoleKey(a), RoleKey(b);
    assert x[0] == SourceIndex(a.source) && y[0] == SourceIndex(b.source);
    assert x[1..29] == a.credential && y[1..29] == b.credential;
    assert x[29..57] == a.id && y[29..57] == b.id;
    assert x[57] == a.weight && y[57] == b.weight;
  }

  /** The key order is the field-by-field order. */
  lemma RoleOrder(a: RoleEntry, b: RoleEntry)
    ensures Less(RoleKey(a), RoleKey(b)) <==>
            SourceIndex(a.source) < SourceIndex(b.source) || (a.source == b.source &&
              (Less(a.credential, b.credential) || (a.credential == b.credential &&
                (Less(a.id, b.id) || (a.id == b.id && a.weight < b.weight)))))
    ensures SourceIndex(SpoCalidus) < SourceIndex(SpoOwner) < SourceIndex(DRep) < SourceIndex(Committee)
  {
    hide Less;
    assert RoleKey(a) == [SourceIndex(a.source)] + (a.credential + (a.id + [a.weight]));
    assert RoleKey(b) == [SourceIndex(b.source)] + (b.credential + (b.id + [b.weight]));
    LessAppend([SourceIndex(a.source)], [SourceIndex(b.source)],
               a.credential + (a.id + [a.weight]), b.credential + (b.id + [b.weight]));
    LessAppend(a.credential, b.credential, a.id + [a.weight], b.id + [b.weight]);
    LessAppend(a.id, b.id, [a.weight], [b.weight]);
    LessSingle(SourceIndex(a.source), SourceIndex(b.source));
    LessSingle(a.weight, b.weight);
  }

  lemma LessSingle(x: int, y: int)
    ensures Less([x], [y]) <==> x < y
    ensures Less([], [x]) && !Less([x], [])
  {
  }

  lemma RegKeyLess(a: CommitteeRegistration, b: CommitteeRegistration)
    ensures Less(RegKey(a), RegKey(b)) <==> Older(a.order, b.order)
                                            || (a.order == b.order && Less(HotKey(a), HotKey(b)))
  {
    var x, y := [a.order.tx, a.order.cert], [b.order.tx, b.order.cert];
    assert RegKey(a) == x + HotKey(a) && RegKey(b) == y + HotKey(b);
    LessAppend(x, y, HotKey(a), HotKey(b));
    assert x[1..] == [a.order.cert] && y[1..] == [b.order.cert];
    LessSingle(a.order.cert, b.order.cert);
  }

  function HotKey(r: CommitteeRegistration): Key {
    r.hot + [if r.hotIsScript then 1 else 0]
  }

  /** The `BTreeSet` of some entries, read out. */
  ghost predicate IsCanonical(out: seq<RoleEntry>, es: set<RoleEntry>) {
    Ascending(RoleKeys(out)) && forall e :: e in out <==> e in es
  }

  lemma RoleKeysMember(out: seq<RoleEntry>, k: Key) returns (i: nat)
    requires k in RoleKeys(out)
    ensures i < |out| && RoleKey(out[i]) == k && out[i] in out
  {
    i :| 0 <= i < |out| && RoleKeys(out)[i] == k;
  }

  lemma RoleKeyIn(out: seq<RoleEntry>, e: RoleEntry)
    requires e in out
    ensures RoleKey(e) in RoleKeys(out)
  {
    var i :| 0 <= i < |out| && out[i] == e;
    assert RoleKeys(out)[i] == RoleKey(e);
  }

  /** The canonical sequence is determined by the set of entries. */
  lemma CanonicalUnique(out: seq<RoleEntry>, out': seq<RoleEntry>, es: set<RoleEntry>)
    requires IsCanonical(out, es) && IsCanonical(out', es)
    ensures out == out'
  {
    hide RoleKey, Less;
    forall k
      ensures k in RoleKeys(out) <==> k in RoleKeys(out')
    {
      if k in RoleKeys(out) {
        var i := RoleKeysMember(out, k);
        RoleKeyIn(out', out[i]);
      }
      if k in RoleKeys(out') {
        var i := RoleKeysMember(out', k);
        RoleKeyIn(out, out'[i]);
      }
    }
    AscendingUnique(RoleKeys(out), RoleKeys(out'));
    forall i | 0 <= i < |out|
      ensures out[i] == out'[i]
    {
      assert RoleKeys(out)[i] == RoleKeys(out')[i];
      RoleKeyInjective(out[i], out'[i]);
    }
  }

  function Elements(es: seq<RoleEntry>): (r: set<RoleEntry>)
    ensures forall e :: e in r <==> e in es
  {
    set e | e in es
  }

  lemma ElementsSnoc(raw: seq<RoleEntry>, i: nat)
    requires i < |raw|
    ensures Elements(raw[..i + 1]) == Elements(raw[..i]) + {raw[i]}
  {
    assert raw[..i + 1] == raw[..i] + [raw[i]];
  }

  /** Canonicalising twice is canonicalising once. */
  lemma CanonicalIdempotent(out: seq<RoleEntry>, again: seq<RoleEntry>, es: set<RoleEntry>)
    requires IsCanonical(out, es) && IsCanonical(again, Elements(out))
    ensures again == out
  {
    hide RoleKeys, Ascending;
    assert Elements(out) == es;
    CanonicalUnique(out, again, es);
  }

  method CanonicalRoleEntries(raw: seq<RoleEntry>) returns (out: seq<RoleEntry>)
    ensures IsCanonical(out, Elements(raw))
  {
    out := [];
    for i := 0 to |raw|
      invariant IsCanonical(out, Elements(raw[..i]))
    {
      hide IsCanonical;
      var p := Position(RoleKeys(out), RoleKey(raw[i]));
      InsertRole(out, raw[i], Elements(raw[..i]));
      ElementsSnoc(raw, i);
      if p == |out| || out[p] != raw[i] {
        out := out[..p] + [raw[i]] + out[p..];
      }
    }
    assert raw[..|raw|] == raw;
  }

  lemma InsertRole(out: seq<RoleEntry>, e: RoleEntry, es: set<RoleEntry>)
    requires IsCanonical(out, es)
    ensures var p := Position(RoleKeys(out), RoleKey(e));
            if p < |out| && out[p] == e then IsCanonical(out, es + {e})
            else IsCanonical(out[..p] + [e] + out[p..], es + {e})
  {
    hide RoleKey, Less;
    var keys, k := RoleKeys(out), RoleKey(e);
    var p := Position(keys, k);
    InsertAscending(keys, k);
    if p < |out| && out[p] == e {
    } else {
      if k in keys {
        RoleKeyInjective(out[p], e);
      }
      var out' := out[..p] + [e] + out[p..];
      assert RoleKeys(out') == keys[..p] + [k] + keys[p..];
      forall x
        ensures x in out' <==> x in es + {e}
      {
        InsertedMember(out, e, p, x);
      }
    }
  }

  lemma InsertedMember(out: seq<RoleEntry>, e: RoleEntry, p: nat, x: RoleEntry)
    requires p <= |out|
    ensures x in out[..p] + [e] + out[p..] <==> x in out || x == e
  {
    assert out == out[..p] + out[p..];
  }
}
