/** Laws of the role reduction: gates and pre-filters change nothing, order changes nothing, weight is not doubled. */
module RoleLaws {
  import opened Prelude
  import opened Ordering
  import opened Calidus
  import opened Roles
  import opened RoleReduction

  // ---------- unverifiable registrations ----------

  lemma {:induction false} VerifiedAppend(c: Crypto, a: seq<Bytes>, b: seq<Bytes>)
    ensures VerifiedRegs(c, a + b) == VerifiedRegs(c, a) + VerifiedRegs(c, b)
    decreases |b|
  {
    hide VerifyRegistration;
    if b == [] {
      assert a + b == a;
    } else {
      VerifiedAppend(c, a, b[..|b| - 1]);
      assert (a + b)[..|a + b| - 1] == a + b[..|b| - 1] && (a + b)[|a + b| - 1] == b[|b| - 1];
    }
  }

  /** Publishing a registration that does not verify, whatever it claims, changes no entry. */
  lemma UnverifiableChangesNothing(c: Crypto, input: RoleInput, i: nat, bogus: Bytes)
    requires i <= |input.registrations| && VerifyRegistration(c, bogus).Err?
    ensures var regs := input.registrations;
            RoleSet(c, input.(registrations := regs[..i] + [bogus] + regs[i..])) == RoleSet(c, input)
  {
    hide VerifyRegistration, RoleSet;
    var regs := input.registrations;
    var a, b := regs[..i], regs[i..];
    VerifiedAppend(c, a + [bogus], b);
    VerifiedAppend(c, a, [bogus]);
    VerifiedAppend(c, a, b);
    assert [bogus][..0] == [];
    assert VerifiedRegs(c, [bogus]) == [];
    assert regs == a + b;
    OnlyVerifiedMatter(c, input, a + [bogus] + b);
  }

  lemma OnlyVerifiedMatter(c: Crypto, input: RoleInput, regs: seq<Bytes>)
    requires VerifiedRegs(c, regs) == VerifiedRegs(c, input.registrations)
    ensures RoleSet(c, input.(registrations := regs)) == RoleSet(c, input)
  {
    hide VerifiedRegs, Best, Weight, CommitteeSet;
    var input', vs := input.(registrations := regs), VerifiedRegs(c, regs);
    assert forall p :: CalidusEmits(input', vs, p) <==> CalidusEmits(input, vs, p);
    assert CalidusSet(c, input') == CalidusSet(c, input);
    assert OwnerSet(input') == OwnerSet(input) && DrepSet(input') == DrepSet(input);
  }

  // ---------- the order of registrations ----------

  /** No two top-nonce registrations of the pool name different keys. */
  ghost predicate NoTopTie(vs: seq<Registration>, pool: Bytes) {
    forall r, r' :: r in vs && r' in vs && Top(vs, pool, r) && Top(vs, pool, r') ==> r.keyHash == r'.keyHash
  }

  ghost predicate Top(vs: seq<Registration>, pool: Bytes, r: Registration) {
    r.poolId == pool && forall x :: x in vs && x.poolId == pool ==> x.nonce <= r.nonce
  }

  function BestKey(vs: seq<Registration>, pool: Bytes): Option<Hash28> {
    match Best(vs, pool)
    case Some(r) => Some(r.keyHash)
    case None => None
  }

  lemma BestIsTop(vs: seq<Registration>, pool: Bytes)
    ensures Best(vs, pool).Some? ==> Top(vs, pool, Best(vs, pool).value)
    ensures Best(vs, pool).None? <==> forall r :: r in vs ==> r.poolId != pool
  {
    var i := BestIsWinner(vs, pool);
    if Best(vs, pool).Some? {
      forall x | x in vs && x.poolId == pool
        ensures x.nonce <= vs[i].nonce
      {
        var j :| 0 <= j < |vs| && vs[j] == x;
      }
    }
  }

  lemma NoTieOrderFree(vs: seq<Registration>, vs': seq<Registration>, pool: Bytes)
    requires multiset(vs) == multiset(vs') && NoTopTie(vs, pool)
    ensures BestKey(vs, pool) == BestKey(vs', pool)
  {
    hide Best;
    SameMultiset(vs, vs');
    BestIsTop(vs, pool);
    BestIsTop(vs', pool);
  }

  /** Moving a tied registration to the front makes it the winner. */
  lemma TieFlips(vs: seq<Registration>, pool: Bytes, j: nat)
    requires j < |vs| && Top(vs, pool, vs[j])
    ensures var vs' := [vs[j]] + Without(vs, j); multiset(vs') == multiset(vs) && Best(vs', pool) == Some(vs[j])
  {
    var vs' := [vs[j]] + Without(vs, j);
    RemoveOne(vs, j);
    assert vs[j] in vs;
    assert multiset(vs') == multiset{vs[j]} + multiset(Without(vs, j));
    SameMultiset(vs', vs);
    assert IsWinner(vs', pool, 0) by {
      forall k | 0 <= k < |vs'| && vs'[k].poolId == pool
        ensures vs'[k].nonce <= vs'[0].nonce
      {
        assert vs'[k] in vs;
      }
    }
    var w := BestIsWinner(vs', pool);
    if Best(vs', pool).Some? {
      WinnerUnique(vs', pool, 0, w);
    }
  }

  /** The winning key is the same in every order exactly when there is no top-nonce tie between keys. */
  lemma OrderFreeIffNoTie(vs: seq<Registration>, pool: Bytes)
    ensures NoTopTie(vs, pool) <==>
            forall vs' :: multiset(vs') == multiset(vs) ==> BestKey(vs', pool) == BestKey(vs, pool)
  {
    hide Best;
    if NoTopTie(vs, pool) {
      forall vs' | multiset(vs') == multiset(vs)
        ensures BestKey(vs', pool) == BestKey(vs, pool)
      {
        NoTieOrderFree(vs, vs', pool);
      }
    } else {
      var r, r' :| r in vs && r' in vs && Top(vs, pool, r) && Top(vs, pool, r') && r.keyHash != r'.keyHash;
      var i :| 0 <= i < |vs| && vs[i] == r;
      var j :| 0 <= j < |vs| && vs[j] == r';
      TieFlips(vs, pool, i);
      TieFlips(vs, pool, j);
      assert BestKey([vs[i]] + Without(vs, i), pool) != BestKey([vs[j]] + Without(vs, j), pool);
    }
  }

  // ---------- the order of everything else ----------

  predicate DistinctIds(rows: seq<(Hash28, nat)>) {
    forall i, j :: 0 <= i < j < |rows| ==> rows[i].0 != rows[j].0
  }

  lemma {:induction false} StakeMapMeaning(rows: seq<(Hash28, nat)>, id: Bytes)
    requires DistinctIds(rows)
    ensures id in StakeMap(rows) <==> exists r :: r in rows && r.0 == id
    ensures forall r :: r in rows ==> r.0 in StakeMap(rows) && (r.0 == id ==> StakeMap(rows)[id] == r.1)
  {
    if rows != [] {
      var n := |rows| - 1;
      var front, last := rows[..n], rows[n];
      StakeMapMeaning(front, id);
      assert rows == front + [last];
    }
  }

  lemma WeightOrderFree(rows: seq<(Hash28, nat)>, rows': seq<(Hash28, nat)>, id: Bytes)
    requires multiset(rows) == multiset(rows') && DistinctIds(rows) && DistinctIds(rows')
    ensures Weight(rows, id) == Weight(rows', id)
  {
    hide StakeMap, DistinctIds;
    SameMultiset(rows, rows');
    StakeMapMeaning(rows, id);
    StakeMapMeaning(rows', id);
    if r :| r in rows && r.0 == id {
      assert r in rows';
    }
  }

  lemma VerifiedSnoc(c: Crypto, regs: seq<Bytes>, b: Bytes)
    ensures multiset(VerifiedRegs(c, regs + [b])) ==
            multiset(VerifiedRegs(c, regs)) + AsMultiset(VerifyRegistration(c, b))
  {
    hide VerifyRegistration;
    assert (regs + [b])[..|regs|] == regs;
  }

  ghost function AsMultiset<E>(r: Result<Registration, E>): multiset<Registration> {
    if r.Ok? then multiset{r.value} else multiset{}
  }

  lemma VerifiedRemove(c: Crypto, regs: seq<Bytes>, i: nat)
    requires i < |regs|
    ensures multiset(VerifiedRegs(c, regs))
         == multiset(VerifiedRegs(c, Without(regs, i))) + AsMultiset(VerifyRegistration(c, regs[i]))
  {
    hide VerifyRegistration, VerifiedRegs;
    var a, b := regs[..i], regs[i + 1..];
    assert regs == (a + [regs[i]]) + b;
    VerifiedAppend(c, a + [regs[i]], b);
    VerifiedAppend(c, a, b);
    VerifiedSnoc(c, a, regs[i]);
  }

  lemma {:induction false} VerifiedMultiset(c: Crypto, regs: seq<Bytes>, regs': seq<Bytes>)
    requires multiset(regs) == multiset(regs')
    ensures multiset(VerifiedRegs(c, regs)) == multiset(VerifiedRegs(c, regs'))
    decreases |regs|
  {
    hide VerifyRegistration, VerifiedRegs;
    SameLength(regs, regs');
    if regs == [] {
      assert regs' == regs;
    } else {
      var i := FindIn(regs, 0, regs');
      WithoutSame(regs, 0, regs', i);
      VerifiedMultiset(c, Without(regs, 0), Without(regs', i));
      VerifiedRemove(c, regs, 0);
      VerifiedRemove(c, regs', i);
    }
  }

  /** The same rows in another order; registrations may be permuted where no pool has a top-nonce tie. */
  ghost predicate SameRows(c: Crypto, a: RoleInput, b: RoleInput) {
    SameRowsBut(c, a, b) && SameCommittee(a.committee, b.committee)
  }

  /** All rows but the committee's. */
  ghost predicate SameRowsBut(c: Crypto, a: RoleInput, b: RoleInput) {
    (a.registrations == b.registrations
     || (multiset(a.registrations) == multiset(b.registrations)
         && forall pool :: pool in a.activePools ==> NoTopTie(VerifiedRegs(c, a.registrations), pool)))
    && multiset(a.activePools) == multiset(b.activePools)
    && multiset(a.ownerPools) == multiset(b.ownerPools)
    && multiset(a.claimedCalidus) == multiset(b.claimedCalidus)
    && multiset(a.liveDreps) == multiset(b.liveDreps)
    && SameStake(a.poolStake, b.poolStake) && SameStake(a.drepStake, b.drepStake)
    && multiset(a.claimedCommittee) == multiset(b.claimedCommittee)
  }

  ghost predicate SameStake(a: seq<(Hash28, nat)>, b: seq<(Hash28, nat)>) {
    a == b || (multiset(a) == multiset(b) && DistinctIds(a) && DistinctIds(b))
  }

  /** The same seats and certificates, up to row order and to the integers a db-sync instance gives its
      transactions. */
  ghost predicate SameCommittee(a: CommitteeRead, b: CommitteeRead) {
    a.epoch == b.epoch && (forall m :: m in a.members <==> m in b.members) && exists ids :: Renumbers(ids, a, b)
  }

  ghost predicate Increasing(ids: map<nat, nat>) {
    forall x, y :: x in ids && y in ids && x < y ==> ids[x] < ids[y]
  }

  function Renumber(ids: map<nat, nat>, o: CertOrder): CertOrder {
    if o.tx in ids then CertOrder(ids[o.tx], o.cert) else o
  }

  function RenumberReg(ids: map<nat, nat>, r: CommitteeRegistration): CommitteeRegistration {
    r.(order := Renumber(ids, r.order))
  }

  function RenumberDereg(ids: map<nat, nat>, d: CommitteeDeregistration): CommitteeDeregistration {
    d.(order := Renumber(ids, d.order))
  }

  /** `b` holds the certificates of `a` with every transaction id mapped, in increasing order, by `ids`. */
  ghost predicate Renumbers(ids: map<nat, nat>, a: CommitteeRead, b: CommitteeRead) {
    Increasing(ids)
    && (forall r :: r in a.registrations ==> r.order.tx in ids && RenumberReg(ids, r) in b.registrations)
    && (forall d :: d in a.deregistrations ==> d.order.tx in ids && RenumberDereg(ids, d) in b.deregistrations)
    && (forall r :: r in b.registrations ==> exists x :: x in a.registrations && RenumberReg(ids, x) == r)
    && forall d :: d in b.deregistrations ==> exists x :: x in a.deregistrations && RenumberDereg(ids, x) == d
  }

  /** Renumbering preserves every comparison the reduction makes. */
  lemma RenumberingKeepsOrder(ids: map<nat, nat>, a: CertOrder, b: CertOrder)
    requires Increasing(ids) && a.tx in ids && b.tx in ids
    ensures Older(a, b) <==> Older(Renumber(ids, a), Renumber(ids, b))
    ensures a == b <==> Renumber(ids, a) == Renumber(ids, b)
  {
  }

  lemma RenumberingKeepsNewest(ids: map<nat, nat>, a: CommitteeRead, b: CommitteeRead, r: CommitteeRegistration)
    requires Renumbers(ids, a, b) && r in a.registrations
    ensures Newest(a.registrations, r) <==> Newest(b.registrations, RenumberReg(ids, r))
  {
    hide RegKey, Less, HotKey, Renumber, Increasing;
    forall x | x in a.registrations
      ensures Less(RegKey(r), RegKey(x)) <==> Less(RegKey(RenumberReg(ids, r)), RegKey(RenumberReg(ids, x)))
    {
      RegKeyLess(r, x);
      RegKeyLess(RenumberReg(ids, r), RenumberReg(ids, x));
      RenumberingKeepsOrder(ids, r.order, x.order);
      assert HotKey(RenumberReg(ids, r)) == HotKey(r) && HotKey(RenumberReg(ids, x)) == HotKey(x) by {
        SameHot(ids, r);
        SameHot(ids, x);
      }
    }
    if Newest(a.registrations, r) {
      forall y | y in b.registrations && y.cold == r.cold
        ensures !Less(RegKey(RenumberReg(ids, r)), RegKey(y))
      {
        var x :| x in a.registrations && RenumberReg(ids, x) == y;
      }
    }
  }

  lemma SameHot(ids: map<nat, nat>, r: CommitteeRegistration)
    ensures HotKey(RenumberReg(ids, r)) == HotKey(r)
  {
  }

  lemma RenumberingKeepsWithdrawn(ids: map<nat, nat>, a: CommitteeRead, b: CommitteeRead, r: CommitteeRegistration)
    requires Renumbers(ids, a, b) && r in a.registrations
    ensures Withdrawn(a.deregistrations, r) <==> Withdrawn(b.deregistrations, RenumberReg(ids, r))
  {
    hide Older, Renumber, Increasing;
    forall d | d in a.deregistrations
      ensures Older(r.order, d.order) <==> Older(Renumber(ids, r.order), Renumber(ids, d.order))
    {
      RenumberingKeepsOrder(ids, r.order, d.order);
    }
    if d :| d in a.deregistrations && d.cold == r.cold && Older(r.order, d.order) {
      assert RenumberDereg(ids, d) in b.deregistrations;
    }
  }

  lemma RenumberingKeepsBadges(ids: map<nat, nat>, a: CommitteeRead, b: CommitteeRead, r: CommitteeRegistration)
    requires a.epoch == b.epoch && (forall m :: m in a.members <==> m in b.members)
    requires Renumbers(ids, a, b) && r in a.registrations
    ensures Badges(a, r) <==> Badges(b, RenumberReg(ids, r))
  {
    hide Renumbers, Newest, Withdrawn, Renumber;
    RenumberingKeepsNewest(ids, a, b, r);
    RenumberingKeepsWithdrawn(ids, a, b, r);
  }

  /** The committee badges depend neither on the order of any row list nor on the integers of the transactions. */
  lemma CommitteeOrderFree(a: CommitteeRead, b: CommitteeRead, claimed: seq<Hash28>, claimed': seq<Hash28>)
    requires SameCommittee(a, b) && multiset(claimed) == multiset(claimed')
    ensures CommitteeSet(a, claimed) == CommitteeSet(b, claimed')
  {
    hide Renumbers, CommitteeSet;
    var ids :| Renumbers(ids, a, b);
    forall e
      ensures e in CommitteeSet(a, claimed) <==> e in CommitteeSet(b, claimed')
    {
      if e in CommitteeSet(a, claimed) {
        EntryRenumbered(ids, a, b, claimed, claimed', e);
      }
      if e in CommitteeSet(b, claimed') {
        EntryFromRenumbered(ids, a, b, claimed, claimed', e);
      }
    }
  }

  lemma EntryRenumbered(ids: map<nat, nat>, a: CommitteeRead, b: CommitteeRead,
                        claimed: seq<Hash28>, claimed': seq<Hash28>, e: RoleEntry)
    requires a.epoch == b.epoch && (forall m :: m in a.members <==> m in b.members) && Renumbers(ids, a, b)
    requires multiset(claimed) == multiset(claimed') && e in CommitteeSet(a, claimed)
    ensures e in CommitteeSet(b, claimed')
  {
    hide Badges, Renumber, Increasing;
    var r :| r in a.registrations && Badges(a, r) && r.hot in claimed && e == CommitteeEntry(r.hot);
    SameMultiset(claimed, claimed');
    RenumberingKeepsBadges(ids, a, b, r);
    assert RenumberReg(ids, r) in b.registrations;
  }

  lemma EntryFromRenumbered(ids: map<nat, nat>, a: CommitteeRead, b: CommitteeRead,
                            claimed: seq<Hash28>, claimed': seq<Hash28>, e: RoleEntry)
    requires a.epoch == b.epoch && (forall m :: m in a.members <==> m in b.members) && Renumbers(ids, a, b)
    requires multiset(claimed) == multiset(claimed') && e in CommitteeSet(b, claimed')
    ensures e in CommitteeSet(a, claimed)
  {
    hide Badges, Renumber, Increasing;
    var y :| y in b.registrations && Badges(b, y) && y.hot in claimed' && e == CommitteeEntry(y.hot);
    var x :| x in a.registrations && RenumberReg(ids, x) == y;
    SameMultiset(claimed, claimed');
    RenumberingKeepsBadges(ids, a, b, x);
  }

  /** Plain permutations are the case of unchanged ids. */
  lemma PermutedCommittee(a: CommitteeRead, b: CommitteeRead)
    requires a.epoch == b.epoch && multiset(a.members) == multiset(b.members)
    requires multiset(a.registrations) == multiset(b.registrations)
    requires multiset(a.deregistrations) == multiset(b.deregistrations)
    ensures SameCommittee(a, b)
  {
    SameMultiset(a.members, b.members);
    SameMultiset(a.registrations, b.registrations);
    SameMultiset(a.deregistrations, b.deregistrations);
    var txs := (set r | r in a.registrations :: r.order.tx) + (set d | d in a.deregistrations :: d.order.tx);
    var ids := map x | x in txs :: x;
    forall r | r in a.registrations
      ensures r.order.tx in ids && RenumberReg(ids, r) == r
    {
    }
    forall d | d in a.deregistrations
      ensures d.order.tx in ids && RenumberDereg(ids, d) == d
    {
    }
    assert Renumbers(ids, a, b);
  }

  lemma WeightSame(a: seq<(Hash28, nat)>, b: seq<(Hash28, nat)>, id: Bytes)
    requires SameStake(a, b)
    ensures Weight(a, id) == Weight(b, id)
  {
    hide Weight;
    if a != b {
      WeightOrderFree(a, b, id);
    }
  }

  lemma CalidusOrderFree(c: Crypto, a: RoleInput, b: RoleInput)
    requires SameRows(c, a, b)
    ensures CalidusSet(c, a) == CalidusSet(c, b)
  {
    hide Weight, Best, VerifiedRegs, SameCommittee, SameStake, NoTopTie;
    var vs, vs' := VerifiedRegs(c, a.registrations), VerifiedRegs(c, b.registrations);
    SameMultiset(a.activePools, b.activePools);
    SameMultiset(a.claimedCalidus, b.claimedCalidus);
    forall p | p in a.activePools
      ensures CalidusEmits(a, vs, p) <==> CalidusEmits(b, vs', p)
      ensures CalidusEmits(a, vs, p) ==>
                CalidusEntry(a.poolStake, Best(vs, p).value) == CalidusEntry(b.poolStake, Best(vs', p).value)
    {
      if a.registrations != b.registrations {
        VerifiedMultiset(c, a.registrations, b.registrations);
        NoTieOrderFree(vs, vs', p);
      }
      assert BestKey(vs, p) == BestKey(vs', p);
      WeightSame(a.poolStake, b.poolStake, p);
    }
  }

  lemma OwnersAndDrepsOrderFree(c: Crypto, a: RoleInput, b: RoleInput)
    requires SameRows(c, a, b)
    ensures OwnerSet(a) == OwnerSet(b) && DrepSet(a) == DrepSet(b)
  {
    hide Weight, VerifiedRegs, SameCommittee, SameStake, NoTopTie;
    SameMultiset(a.activePools, b.activePools);
    SameMultiset(a.ownerPools, b.ownerPools);
    SameMultiset(a.liveDreps, b.liveDreps);
    forall o | o in a.ownerPools
      ensures OwnerEntry(a.poolStake, o) == OwnerEntry(b.poolStake, o)
    {
      WeightSame(a.poolStake, b.poolStake, o.1);
    }
    forall d | d in a.liveDreps
      ensures DrepEntry(a.drepStake, d) == DrepEntry(b.drepStake, d)
    {
      WeightSame(a.drepStake, b.drepStake, d);
    }
  }

  /** The whole role output does not depend on row order. */
  lemma RolesOrderFree(c: Crypto, a: RoleInput, b: RoleInput, out: seq<RoleEntry>, out': seq<RoleEntry>)
    requires SameRows(c, a, b) && IsCanonical(out, RoleSet(c, a)) && IsCanonical(out', RoleSet(c, b))
    ensures out == out'
  {
    hide CalidusSet, OwnerSet, DrepSet, CommitteeSet, IsCanonical;
    CalidusOrderFree(c, a, b);
    OwnersAndDrepsOrderFree(c, a, b);
    CommitteeOrderFree(a.committee, b.committee, a.claimedCommittee, b.claimedCommittee);
    CanonicalUnique(out, out', RoleSet(c, a));
  }

  // ---------- the claim filter ----------

  /** Every hot key some registration names. */
  function AllHot(cc: CommitteeRead): (hots: seq<Hash28>)
    ensures forall r :: r in cc.registrations ==> r.hot in hots
  {
    var hots := seq(|cc.registrations|, i requires 0 <= i < |cc.registrations| => cc.registrations[i].hot);
    assert forall i :: 0 <= i < |cc.registrations| ==> hots[i] == cc.registrations[i].hot;
    hots
  }

  /** Claims filter the result; they never choose the winner. */
  lemma ClaimsFilterResult(cc: CommitteeRead, claimed: seq<Hash28>)
    ensures CommitteeSet(cc, claimed) == set e | e in CommitteeSet(cc, AllHot(cc)) && e.credential in claimed
  {
    hide Badges;
    var all := CommitteeSet(cc, AllHot(cc));
    forall e | e in all && e.credential in claimed
      ensures e in CommitteeSet(cc, claimed)
    {
      var r :| r in cc.registrations && Badges(cc, r) && r.hot in AllHot(cc) && e == CommitteeEntry(r.hot);
    }
  }

  // ---------- the stake scope ----------

  /** The pools the service asks stake for: owned ones and claimed Calidus ones. */
  function StakeScope(c: Crypto, input: RoleInput): set<Bytes> {
    (set o | o in input.ownerPools :: o.1)
    + ClaimedPools(c, input.registrations, input.claimedCalidus, input.activePools)
  }

  function Scoped(rows: seq<(Hash28, nat)>, scope: set<Bytes>): seq<(Hash28, nat)> {
    if rows == [] then [] else
    var last := rows[|rows| - 1];
    Scoped(rows[..|rows| - 1], scope) + if last.0 in scope then [last] else []
  }

  lemma {:induction false} ScopedWeight(rows: seq<(Hash28, nat)>, scope: set<Bytes>, id: Bytes)
    requires id in scope
    ensures Weight(Scoped(rows, scope), id) == Weight(rows, id)
  {
    if rows != [] {
      var front, last := rows[..|rows| - 1], rows[|rows| - 1];
      var s := Scoped(front, scope);
      ScopedWeight(front, scope, id);
      if last.0 in scope {
        assert (s + [last])[..|s|] == s;
        assert StakeMap(s + [last]) == StakeMap(s)[last.0 := last.1];
      } else {
        assert s + [] == s;
      }
    }
  }

  /** Reading stake for the service's scope is as good as reading the whole table. */
  lemma ScopeSuffices(c: Crypto, input: RoleInput)
    ensures RoleSet(c, input.(poolStake := Scoped(input.poolStake, StakeScope(c, input)))) == RoleSet(c, input)
  {
    hide Weight, Best, VerifiedRegs, ClaimedPools, CommitteeSet, Scoped;
    var scope := StakeScope(c, input);
    var rows, scoped := input.poolStake, Scoped(input.poolStake, scope);
    var input' := input.(poolStake := scoped);
    var vs := VerifiedRegs(c, input.registrations);
    forall p | p in input.activePools && CalidusEmits(input, vs, p)
      ensures CalidusEntry(rows, Best(vs, p).value) == CalidusEntry(scoped, Best(vs, p).value)
    {
      GateKeepsEmitters(c, input, p);
      ScopedWeight(rows, scope, p);
      BestPool(vs, p);
    }
    assert CalidusSet(c, input') == CalidusSet(c, input);
    forall o | o in input.ownerPools
      ensures OwnerEntry(rows, o) == OwnerEntry(scoped, o)
    {
      ScopedWeight(rows, scope, o.1);
    }
    assert OwnerSet(input') == OwnerSet(input);
  }

  lemma BestPool(vs: seq<Registration>, p: Bytes)
    ensures Best(vs, p).Some? ==> Best(vs, p).value.poolId == p
  {
  }

  // ---------- nothing is counted twice ----------

  /** Source, credential and id determine the weight, so they determine the entry. */
  lemma EntryDetermined(c: Crypto, input: RoleInput, e: RoleEntry, e': RoleEntry)
    requires e in RoleSet(c, input) && e' in RoleSet(c, input)
    requires e.source == e'.source && e.credential == e'.credential && e.id == e'.id
    ensures e == e'
  {
    hide Weight, Best, VerifiedRegs, Badges;
    EntryWeight(c, input, e);
    EntryWeight(c, input, e');
  }

  lemma EntryWeight(c: Crypto, input: RoleInput, e: RoleEntry)
    requires e in RoleSet(c, input)
    ensures e.weight == match e.source
                        case SpoCalidus => Weight(input.poolStake, e.id)
                        case SpoOwner => Weight(input.poolStake, e.id)
                        case DRep => Weight(input.drepStake, e.id)
                        case Committee => 0
  {
    hide Weight, Best, VerifiedRegs, Badges;
  }

  /** A pool backs at most one Calidus entry, and only while active. */
  lemma OneCalidusEntryPerPool(c: Crypto, input: RoleInput, e: RoleEntry, e': RoleEntry)
    requires e in RoleSet(c, input) && e' in RoleSet(c, input)
    requires e.source == SpoCalidus && e'.source == SpoCalidus && e.id == e'.id
    ensures e == e' && e.id in input.activePools
  {
    hide Weight, VerifiedRegs, Badges, Best;
    var vs := VerifiedRegs(c, input.registrations);
    assert e in CalidusSet(c, input) && e' in CalidusSet(c, input);
    var p :| p in input.activePools && CalidusEmits(input, vs, p)
             && e == CalidusEntry(input.poolStake, Best(vs, p).value);
    var p' :| p' in input.activePools && CalidusEmits(input, vs, p')
              && e' == CalidusEntry(input.poolStake, Best(vs, p').value);
    BestPool(vs, p);
    BestPool(vs, p');
  }

  /** The Calidus chamber weight a list of entries carries. */
  function CalidusWeight(es: seq<RoleEntry>): nat {
    if es == [] then 0 else
    var last := es[|es| - 1];
    CalidusWeight(es[..|es| - 1]) + if last.source == SpoCalidus then last.weight else 0
  }

  function PoolSet(pools: seq<Hash28>): set<Bytes> {
    set p | p in pools
  }

  ghost function TotalStake(pools: set<Bytes>, rows: seq<(Hash28, nat)>): nat {
    if pools == {} then 0 else
    var p :| p in pools;
    Weight(rows, p) + TotalStake(pools - {p}, rows)
  }

  lemma {:induction false} TotalStakeRemove(pools: set<Bytes>, rows: seq<(Hash28, nat)>, p: Bytes)
    requires p in pools
    ensures TotalStake(pools, rows) == Weight(rows, p) + TotalStake(pools - {p}, rows)
    decreases |pools|
  {
    hide Weight;
    var q :| q in pools && TotalStake(pools, rows) == Weight(rows, q) + TotalStake(pools - {q}, rows);
    if q != p {
      TotalStakeRemove(pools - {q}, rows, p);
      TotalStakeRemove(pools - {p}, rows, q);
      assert pools - {q} - {p} == pools - {p} - {q};
    }
  }

  /** Calidus entries with distinct pools from `pools`, each weighted by its pool's stake. */
  ghost predicate WeighedOnce(es: seq<RoleEntry>, rows: seq<(Hash28, nat)>, pools: set<Bytes>) {
    (forall i :: 0 <= i < |es| && es[i].source == SpoCalidus ==>
        es[i].id in pools && es[i].weight == Weight(rows, es[i].id))
    && forall i, j :: 0 <= i < j < |es| && es[i].source == SpoCalidus && es[j].source == SpoCalidus ==>
       es[i].id != es[j].id
  }

  lemma {:induction false} WeighedOnceBound(es: seq<RoleEntry>, rows: seq<(Hash28, nat)>, pools: set<Bytes>)
    requires WeighedOnce(es, rows, pools)
    ensures CalidusWeight(es) <= TotalStake(pools, rows)
  {
    hide Weight, TotalStake;
    if es != [] {
      var last := es[|es| - 1];
      if last.source == SpoCalidus {
        assert WeighedOnce(es[..|es| - 1], rows, pools - {last.id});
        WeighedOnceBound(es[..|es| - 1], rows, pools - {last.id});
        TotalStakeRemove(pools, rows, last.id);
      } else {
        assert WeighedOnce(es[..|es| - 1], rows, pools);
        WeighedOnceBound(es[..|es| - 1], rows, pools);
      }
    }
  }

  /** The Calidus weights of an observation sum to at most the active pools' stake. */
  lemma CalidusWeightBounded(c: Crypto, input: RoleInput, out: seq<RoleEntry>)
    requires IsCanonical(out, RoleSet(c, input))
    ensures CalidusWeight(out) <= TotalStake(PoolSet(input.activePools), input.poolStake)
  {
    hide Weight, RoleSet, TotalStake, CalidusWeight, RoleKey, Less;
    var pools := PoolSet(input.activePools);
    forall i | 0 <= i < |out| && out[i].source == SpoCalidus
      ensures out[i].id in pools && out[i].weight == Weight(input.poolStake, out[i].id)
    {
      assert out[i] in out;
      EntryWeight(c, input, out[i]);
      OneCalidusEntryPerPool(c, input, out[i], out[i]);
    }
    forall i, j | 0 <= i < j < |out| && out[i].source == SpoCalidus && out[j].source == SpoCalidus
      ensures out[i].id != out[j].id
    {
      assert out[i] in out && out[j] in out;
      CanonicalDistinct(out, RoleSet(c, input), i, j);
      if out[i].id == out[j].id {
        OneCalidusEntryPerPool(c, input, out[i], out[j]);
      }
    }
    WeighedOnceBound(out, input.poolStake, pools);
  }

  lemma CanonicalDistinct(out: seq<RoleEntry>, es: set<RoleEntry>, i: nat, j: nat)
    requires IsCanonical(out, es) && i < j < |out|
    ensures out[i] != out[j]
  {
    LessIrreflexive(RoleKey(out[i]));
    assert RoleKeys(out)[i] == RoleKey(out[i]) && RoleKeys(out)[j] == RoleKey(out[j]);
  }
}
