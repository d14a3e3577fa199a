/** The loops of `reduce_role_observation`, proved to emit exactly the declarative role set. */
module RoleReduction {
  import opened Prelude
  import opened Ordering
  import opened Calidus
  import CalidusReader
  import opened Roles
  import opened RoleFields

  // ---------- highest nonce wins ----------

  /** There is at most one winner per pool. */
  lemma WinnerUnique(vs: seq<Registration>, pool: Bytes, i: int, j: int)
    requires IsWinner(vs, pool, i) && IsWinner(vs, pool, j)
    ensures i == j
  {
  }

  /** `Best` is the earliest registration with the highest nonce; it exists iff the pool has any. */
  lemma {:induction false} BestIsWinner(vs: seq<Registration>, pool: Bytes) returns (i: int)
    ensures Best(vs, pool).None? ==> forall j :: 0 <= j < |vs| ==> vs[j].poolId != pool
    ensures Best(vs, pool).Some? ==> IsWinner(vs, pool, i) && vs[i] == Best(vs, pool).value
  {
    i := 0;
    if vs != [] {
      var n := |vs| - 1;
      i := BestIsWinner(vs[..n], pool);
      if vs[n].poolId == pool && (Best(vs[..n], pool).None? || vs[n].nonce > Best(vs[..n], pool).value.nonce) {
        i := n;
      }
    }
  }

  /** A verified registration comes from a row that also parses to it. */
  lemma {:induction false} VerifiedFrom(c: Crypto, regs: seq<Bytes>, r: Registration) returns (b: Bytes)
    requires r in VerifiedRegs(c, regs)
    ensures b in regs && VerifyRegistration(c, b) == Ok(r) && ParseRegistration(c, b) == Ok(r)
  {
    hide VerifyRegistration, ParseRegistration;
    var n := |regs| - 1;
    var v := VerifyRegistration(c, regs[n]);
    if v == Ok(r) {
      b := regs[n];
      VerifiedIsParsed(c, b);
    } else {
      b := VerifiedFrom(c, regs[..n], r);
    }
  }

  /** The parse-only gate keeps every pool the ungated rule would emit. */
  lemma GateKeepsEmitters(c: Crypto, input: RoleInput, pool: Bytes)
    requires CalidusEmits(input, VerifiedRegs(c, input.registrations), pool)
    ensures pool in ClaimedPools(c, input.registrations, input.claimedCalidus, input.activePools)
  {
    hide VerifyRegistration, ParseRegistration;
    var r := Best(VerifiedRegs(c, input.registrations), pool).value;
    var b := VerifiedFrom(c, input.registrations, r);
  }

  /** The `winner` map after some rows: the best verified registration of every gated pool. */
  ghost predicate Winners(winner: map<Bytes, Registration>, vs: seq<Registration>, gate: set<Bytes>) {
    forall p :: (p in winner <==> p in gate && Best(vs, p).Some?) && (p in winner ==> winner[p] == Best(vs, p).value)
  }

  lemma WinnersStep(winner: map<Bytes, Registration>, vs: seq<Registration>, gate: set<Bytes>, r: Registration)
    requires Winners(winner, vs, gate)
    ensures r.poolId !in gate ==> Winners(winner, vs + [r], gate)
    ensures r.poolId in gate && r.poolId in winner && r.nonce <= winner[r.poolId].nonce ==>
            Winners(winner, vs + [r], gate)
    ensures r.poolId in gate && (r.poolId in winner ==> r.nonce > winner[r.poolId].nonce)
            ==> Winners(winner[r.poolId := r], vs + [r], gate)
  {
    forall p
      ensures Best(vs + [r], p) ==
              if r.poolId == p && (Best(vs, p).None? || r.nonce > Best(vs, p).value.nonce) then Some(r) else Best(vs, p)
    {
      assert (vs + [r])[..|vs|] == vs;
    }
  }

  method CalidusWinners(c: Crypto, regs: seq<Bytes>, gate: set<Bytes>) returns (winner: map<Bytes, Registration>)
    ensures Winners(winner, VerifiedRegs(c, regs), gate)
  {
    hide VerifyRegistration, ParseRegistration, Winners;
    winner := map[];
    ghost var vs: seq<Registration> := [];
    NoWinners(gate);
    for i := 0 to |regs|
      invariant vs == VerifiedRegs(c, regs[..i])
      invariant Winners(winner, vs, gate)
    {
      assert regs[..i + 1][..i] == regs[..i];
      var b := regs[i];
      ghost var v := VerifyRegistration(c, b);
      if v.Ok? {
        VerifiedIsParsed(c, b);
        WinnersStep(winner, vs, gate, v.value);
        vs := vs + [v.value];
      }
      var pre := CalidusReader.Parse(c, b);
      if pre.Err? {
        VerifyNeedsParse(c, b);
        continue;
      }
      if pre.value.poolId !in gate {
        continue;
      }
      var reg := CalidusReader.Verify(c, b);
      if reg.Err? {
        continue;
      }
      var r := reg.value;
      if r.poolId !in winner || r.nonce > winner[r.poolId].nonce {
        winner := winner[r.poolId := r];
      }
    }
    assert regs[..|regs|] == regs;
  }

  lemma NoWinners(gate: set<Bytes>)
    ensures Winners(map[], [], gate)
  {
  }

  lemma VerifyNeedsParse(c: Crypto, b: Bytes)
    requires ParseRegistration(c, b).Err?
    ensures VerifyRegistration(c, b).Err?
  {
  }

  method CalidusArm(c: Crypto, input: RoleInput) returns (entries: seq<RoleEntry>)
    ensures forall e :: e in entries <==> e in CalidusSet(c, input)
  {
    hide VerifyRegistration, ParseRegistration, Weight;
    var gate := ClaimedPools(c, input.registrations, input.claimedCalidus, input.activePools);
    ghost var vs := VerifiedRegs(c, input.registrations);
    var winner := CalidusWinners(c, input.registrations, gate);
    entries := [];
    var todo := winner.Keys;
    while todo != {}
      invariant todo <= winner.Keys
      invariant forall e :: e in entries <==>
                exists p :: p in winner && p !in todo && CalidusEmits(input, vs, p)
                  && e == CalidusEntry(input.poolStake, winner[p])
      decreases |todo|
    {
      var pool :| pool in todo;
      todo := todo - {pool};
      var reg := winner[pool];
      ghost var before := entries;
      if reg.keyHash in input.claimedCalidus && pool in input.activePools {
        entries := entries + [CalidusEntry(input.poolStake, reg)];
      }
      assert CalidusEmits(input, vs, pool) <==> reg.keyHash in input.claimedCalidus && pool in input.activePools;
      assert forall e :: e in entries <==>
             e in before || (CalidusEmits(input, vs, pool) && e == CalidusEntry(input.poolStake, reg));
    }
    forall p | CalidusEmits(input, vs, p)
      ensures p in winner
    {
      GateKeepsEmitters(c, input, p);
    }
  }

  method OwnerArm(input: RoleInput) returns (entries: seq<RoleEntry>)
    ensures forall e :: e in entries <==> e in OwnerSet(input)
    ensures forall e :: e in entries <==>
              e.source == SpoOwner && (e.credential, e.id) in input.ownerPools && e.id in input.activePools
              && Stakes(input.poolStake, e.id, e.weight)
  {
    hide Weight;
    entries := [];
    for i := 0 to |input.ownerPools|
      invariant forall e :: e in entries <==>
                exists o :: o in input.ownerPools[..i] && o.1 in input.activePools
                  && e == OwnerEntry(input.poolStake, o)
    {
      var o := input.ownerPools[i];
      assert input.ownerPools[..i + 1] == input.ownerPools[..i] + [o];
      if o.1 in input.activePools {
        entries := entries + [OwnerEntry(input.poolStake, o)];
      }
    }
    assert input.ownerPools[..|input.ownerPools|] == input.ownerPools;
    hide OwnerSet, OwnerEntry, Stakes;
    forall e
      ensures e in OwnerSet(input) <==>
              e.source == SpoOwner && (e.credential, e.id) in input.ownerPools && e.id in input.activePools
              && Stakes(input.poolStake, e.id, e.weight)
    {
      OwnerMeaning(input, e);
    }
  }

  method DrepArm(input: RoleInput) returns (entries: seq<RoleEntry>)
    ensures forall e :: e in entries <==> e in DrepSet(input)
  {
    hide Weight;
    entries := [];
    for i := 0 to |input.liveDreps|
      invariant forall e :: e in entries <==>
                exists d :: d in input.liveDreps[..i] && e == DrepEntry(input.drepStake, d)
    {
      var d := input.liveDreps[i];
      assert input.liveDreps[..i + 1] == input.liveDreps[..i] + [d];
      entries := entries + [DrepEntry(input.drepStake, d)];
    }
    assert input.liveDreps[..|input.liveDreps|] == input.liveDreps;
  }

  // ---------- the committee folds ----------

  /** The `seat` map: the shortest term of every credential, its script flags or-ed. */
  ghost predicate Seats(seat: map<Bytes, CommitteeMember>, members: seq<CommitteeMember>) {
    (forall cold :: cold in seat <==> Seated(members, cold))
    && forall cold :: cold in seat ==>
         (exists m :: m in members && m.cold == cold && m.expirationEpoch == seat[cold].expirationEpoch)
         && forall m :: m in members && m.cold == cold ==> seat[cold].expirationEpoch <= m.expirationEpoch
  }

  lemma SeatsStep(seat: map<Bytes, CommitteeMember>, members: seq<CommitteeMember>, m: CommitteeMember,
                  w: CommitteeMember)
    requires Seats(seat, members)
    requires w.expirationEpoch == if m.cold in seat && seat[m.cold].expirationEpoch < m.expirationEpoch
                                  then seat[m.cold].expirationEpoch else m.expirationEpoch
    ensures Seats(seat[m.cold := w], members + [m])
  {
    var seat', members' := seat[m.cold := w], members + [m];
    assert m in members';
    forall cold
      ensures cold in seat' <==> Seated(members', cold)
    {
      if Seated(members, cold) {
        var x :| x in members && x.cold == cold;
        assert x in members';
      }
    }
    forall cold | cold in seat'
      ensures exists x :: x in members' && x.cold == cold && x.expirationEpoch == seat'[cold].expirationEpoch
    {
      if cold in seat {
        var x :| x in members && x.cold == cold && x.expirationEpoch == seat[cold].expirationEpoch;
        assert x in members';
      }
    }
  }

  function Min(a: nat, b: nat): nat {
    if a < b then a else b
  }

  method FoldSeats(members: seq<CommitteeMember>) returns (seat: map<Bytes, CommitteeMember>)
    ensures Seats(seat, members)
  {
    seat := map[];
    for i := 0 to |members|
      invariant Seats(seat, members[..i])
    {
      hide Seats;
      var m := members[i];
      assert members[..i + 1] == members[..i] + [m];
      var w := m;
      if m.cold in seat {
        var s := seat[m.cold];
        w := s.(isScript := s.isScript || m.isScript,
                expirationEpoch := Min(s.expirationEpoch, m.expirationEpoch));
      }
      SeatsStep(seat, members[..i], m, w);
      seat := seat[m.cold := w];
    }
    assert members[..|members|] == members;
  }

  /** The `newest_reg` map after some rows. */
  ghost predicate Latest(newest: map<Bytes, CommitteeRegistration>, regs: seq<CommitteeRegistration>,
                         seated: set<Bytes>) {
    (forall cold :: cold in newest ==> newest[cold].cold == cold && cold in seated && Newest(regs, newest[cold]))
    && forall r :: r in regs && r.cold in seated ==> r.cold in newest
  }

  lemma LatestStep(newest: map<Bytes, CommitteeRegistration>, regs: seq<CommitteeRegistration>, seated: set<Bytes>,
                   r: CommitteeRegistration)
    requires Latest(newest, regs, seated)
    ensures r.cold !in seated ==> Latest(newest, regs + [r], seated)
    ensures r.cold in seated && (r.cold in newest ==> Less(RegKey(newest[r.cold]), RegKey(r)))
            ==> Latest(newest[r.cold := r], regs + [r], seated)
    ensures r.cold in newest && !Less(RegKey(newest[r.cold]), RegKey(r)) ==> Latest(newest, regs + [r], seated)
  {
    hide Less, RegKey;
    LessIrreflexive(RegKey(r));
    forall cold | cold in newest && cold != r.cold
      ensures Newest(regs + [r], newest[cold])
    {
    }
    if r.cold in newest && Less(RegKey(newest[r.cold]), RegKey(r)) {
      forall r' | r' in regs && r'.cold == r.cold && Less(RegKey(r), RegKey(r'))
        ensures false
      {
        LessTransitive(RegKey(newest[r.cold]), RegKey(r), RegKey(r'));
      }
    }
  }

  method FoldRegistrations(regs: seq<CommitteeRegistration>, seated: set<Bytes>)
    returns (newest: map<Bytes, CommitteeRegistration>)
    ensures Latest(newest, regs, seated)
  {
    newest := map[];
    for i := 0 to |regs|
      invariant Latest(newest, regs[..i], seated)
    {
      hide Latest, Less, RegKey;
      var r := regs[i];
      assert regs[..i + 1] == regs[..i] + [r];
      LatestStep(newest, regs[..i], seated, r);
      if r.cold !in seated {
        continue;
      }
      if r.cold !in newest || Less(RegKey(newest[r.cold]), RegKey(r)) {
        newest := newest[r.cold := r];
      }
    }
    assert regs[..|regs|] == regs;
  }

  /** The `newest_dereg` map after some rows. */
  ghost predicate LatestGone(gone: map<Bytes, CertOrder>, deregs: seq<CommitteeDeregistration>, seated: set<Bytes>) {
    (forall cold :: cold in gone ==> exists d :: d in deregs && d.cold == cold && d.order == gone[cold])
    && forall d :: d in deregs && d.cold in seated ==> d.cold in gone && !Older(gone[d.cold], d.order)
  }

  lemma LatestGoneStep(gone: map<Bytes, CertOrder>, deregs: seq<CommitteeDeregistration>, seated: set<Bytes>,
                       d: CommitteeDeregistration)
    requires LatestGone(gone, deregs, seated)
    ensures d.cold !in seated || (d.cold in gone && !Older(gone[d.cold], d.order)) ==>
            LatestGone(gone, deregs + [d], seated)
    ensures d.cold in gone ==> Older(gone[d.cold], d.order) ==>
            LatestGone(gone[d.cold := d.order], deregs + [d], seated)
    ensures d.cold !in gone ==> LatestGone(gone[d.cold := d.order], deregs + [d], seated)
  {
    var deregs' := deregs + [d];
    assert d in deregs';
    forall cold | cold in gone
      ensures exists x :: x in deregs' && x.cold == cold && x.order == gone[cold]
    {
      var x :| x in deregs && x.cold == cold && x.order == gone[cold];
      assert x in deregs';
    }
  }

  method FoldDeregistrations(deregs: seq<CommitteeDeregistration>, seated: set<Bytes>)
    returns (gone: map<Bytes, CertOrder>)
    ensures LatestGone(gone, deregs, seated)
  {
    gone := map[];
    for i := 0 to |deregs|
      invariant LatestGone(gone, deregs[..i], seated)
    {
      hide LatestGone;
      var d := deregs[i];
      assert deregs[..i + 1] == deregs[..i] + [d];
      LatestGoneStep(gone, deregs[..i], seated, d);
      if d.cold !in seated {
        continue;
      }
      if d.cold !in gone || Older(gone[d.cold], d.order) {
        gone := gone[d.cold := d.order];
      }
    }
    assert deregs[..|deregs|] == deregs;
  }

  /** What the emit loop tests for one seated credential. */
  predicate SeatEmits(cc: CommitteeRead, claimed: seq<Hash28>, seat: map<Bytes, CommitteeMember>,
                      newest: map<Bytes, CommitteeRegistration>, gone: map<Bytes, CertOrder>, cold: Bytes) {
    cold in seat && seat[cold].InTermAt(cc.epoch) && cold in newest && !newest[cold].hotIsScript
    && !(cold in gone && Older(newest[cold].order, gone[cold])) && newest[cold].hot in claimed
  }

  lemma NewestUnique(regs: seq<CommitteeRegistration>, a: CommitteeRegistration, b: CommitteeRegistration)
    requires Newest(regs, a) && Newest(regs, b) && a.cold == b.cold
    ensures a == b
  {
    LessTotal(RegKey(a), RegKey(b));
    RegKeyInjective(a, b);
  }

  lemma RegKeyInjective(a: CommitteeRegistration, b: CommitteeRegistration)
    requires a.cold == b.cold
    ensures RegKey(a) == RegKey(b) ==> a == b
  {
    var x, y := RegKey(a), RegKey(b);
    assert x[0] == a.order.tx && y[0] == b.order.tx && x[1] == a.order.cert && y[1] == b.order.cert;
    assert x[2..30] == a.hot && y[2..30] == b.hot;
    assert x[30] == (if a.hotIsScript then 1 else 0) && y[30] == (if b.hotIsScript then 1 else 0);
  }

  lemma OlderTransitive(a: CertOrder, b: CertOrder, c: CertOrder)
    requires Older(a, b) && !Older(c, b)
    ensures Older(a, c)
  {
  }

  /** The folded maps decide exactly the declarative rule. */
  lemma SeatEmitsIsBadge(cc: CommitteeRead, claimed: seq<Hash28>, seat: map<Bytes, CommitteeMember>,
                         newest: map<Bytes, CommitteeRegistration>, gone: map<Bytes, CertOrder>,
                         r: CommitteeRegistration)
    requires Seats(seat, cc.members) && Latest(newest, cc.registrations, seat.Keys)
    requires LatestGone(gone, cc.deregistrations, seat.Keys)
    requires r in cc.registrations
    ensures Badges(cc, r) && r.hot in claimed <==>
            SeatEmits(cc, claimed, seat, newest, gone, r.cold) && newest[r.cold] == r
  {
    hide Less, RegKey;
    var cold := r.cold;
    if cold in seat {
      var m :| m in cc.members && m.cold == cold && m.expirationEpoch == seat[cold].expirationEpoch;
      assert InTerm(cc, cold) <==> seat[cold].InTermAt(cc.epoch);
      assert cold in newest && Newest(cc.registrations, newest[cold]);
      if Newest(cc.registrations, r) {
        NewestUnique(cc.registrations, r, newest[cold]);
      }
      assert Withdrawn(cc.deregistrations, r) <==> cold in gone && Older(r.order, gone[cold]) by {
        if cold in gone {
          var d :| d in cc.deregistrations && d.cold == cold && d.order == gone[cold];
        }
        if Withdrawn(cc.deregistrations, r) {
          var d :| d in cc.deregistrations && d.cold == cold && Older(r.order, d.order);
          OlderTransitive(r.order, d.order, gone[cold]);
        }
      }
    }
  }

  method CommitteeArm(cc: CommitteeRead, claimed: seq<Hash28>) returns (entries: seq<RoleEntry>)
    ensures forall e :: e in entries <==> e in CommitteeSet(cc, claimed)
  {
    var seat := FoldSeats(cc.members);
    var newest := FoldRegistrations(cc.registrations, seat.Keys);
    var gone := FoldDeregistrations(cc.deregistrations, seat.Keys);
    entries := [];
    var todo := seat.Keys;
    NoneEmitted(cc, claimed, seat, newest, gone);
    while todo != {}
      invariant todo <= seat.Keys
      invariant Emitted(cc, claimed, seat, newest, gone, todo, entries)
      decreases |todo|
    {
      hide Seats, Latest, LatestGone, CommitteeSet, Older, Emitted;
      var cold :| cold in todo;
      EmittedStep(cc, claimed, seat, newest, gone, todo, entries, cold);
      todo := todo - {cold};
      if !seat[cold].InTermAt(cc.epoch) {
        continue;
      }
      if cold !in newest {
        continue;
      }
      var reg := newest[cold];
      if reg.hotIsScript {
        continue;
      }
      if cold in gone && Older(reg.order, gone[cold]) {
        continue;
      }
      if reg.hot !in claimed {
        continue;
      }
      entries := entries + [CommitteeEntry(reg.hot)];
    }
    hide Seats, Latest, LatestGone, SeatEmits, CommitteeSet;
    forall e
      ensures e in entries <==> e in CommitteeSet(cc, claimed)
    {
      CommitteeCovered(cc, claimed, seat, newest, gone, e);
    }
  }

  /** The entries pushed for the credentials outside `todo`. */
  ghost predicate Emitted(cc: CommitteeRead, claimed: seq<Hash28>, seat: map<Bytes, CommitteeMember>,
                          newest: map<Bytes, CommitteeRegistration>, gone: map<Bytes, CertOrder>,
                          todo: set<Bytes>, entries: seq<RoleEntry>) {
    forall e :: e in entries <==>
      exists cold :: cold !in todo && SeatEmits(cc, claimed, seat, newest, gone, cold)
        && e == CommitteeEntry(newest[cold].hot)
  }

  lemma NoneEmitted(cc: CommitteeRead, claimed: seq<Hash28>, seat: map<Bytes, CommitteeMember>,
                    newest: map<Bytes, CommitteeRegistration>, gone: map<Bytes, CertOrder>)
    ensures Emitted(cc, claimed, seat, newest, gone, seat.Keys, [])
  {
  }

  lemma EmittedStep(cc: CommitteeRead, claimed: seq<Hash28>, seat: map<Bytes, CommitteeMember>,
                    newest: map<Bytes, CommitteeRegistration>, gone: map<Bytes, CertOrder>,
                    todo: set<Bytes>, entries: seq<RoleEntry>, cold: Bytes)
    requires Emitted(cc, claimed, seat, newest, gone, todo, entries) && cold in todo
    ensures if SeatEmits(cc, claimed, seat, newest, gone, cold)
            then Emitted(cc, claimed, seat, newest, gone, todo - {cold}, entries + [CommitteeEntry(newest[cold].hot)])
            else Emitted(cc, claimed, seat, newest, gone, todo - {cold}, entries)
  {
    if SeatEmits(cc, claimed, seat, newest, gone, cold) {
      hide CommitteeEntry;
      var x := CommitteeEntry(newest[cold].hot);
      assert forall e :: e in entries + [x] <==> e in entries || e == x;
    }
  }

  lemma CommitteeCovered(cc: CommitteeRead, claimed: seq<Hash28>, seat: map<Bytes, CommitteeMember>,
                         newest: map<Bytes, CommitteeRegistration>, gone: map<Bytes, CertOrder>, e: RoleEntry)
    requires Seats(seat, cc.members) && Latest(newest, cc.registrations, seat.Keys)
    requires LatestGone(gone, cc.deregistrations, seat.Keys)
    ensures e in CommitteeSet(cc, claimed) <==>
            exists cold :: SeatEmits(cc, claimed, seat, newest, gone, cold) && e == CommitteeEntry(newest[cold].hot)
  {
    hide Seats, LatestGone, Badges, Newest;
    if e in CommitteeSet(cc, claimed) {
      var r :| r in cc.registrations && Badges(cc, r) && r.hot in claimed && e == CommitteeEntry(r.hot);
      SeatEmitsIsBadge(cc, claimed, seat, newest, gone, r);
    }
    if cold :| SeatEmits(cc, claimed, seat, newest, gone, cold) && e == CommitteeEntry(newest[cold].hot) {
      NewestListed(cc.registrations, newest[cold]);
      SeatEmitsIsBadge(cc, claimed, seat, newest, gone, newest[cold]);
    }
  }

  lemma NewestListed(regs: seq<CommitteeRegistration>, r: CommitteeRegistration)
    requires Newest(regs, r)
    ensures r in regs
  {
  }

  // ---------- the whole reduction ----------

  method ReduceRoleObservation(c: Crypto, input: RoleInput) returns (out: seq<RoleEntry>)
    ensures IsCanonical(out, RoleSet(c, input))
    ensures forall e :: e in out <==> Supported(c, input, e)
  {
    hide CalidusSet, OwnerSet, DrepSet, CommitteeSet, Stakes, Wins, SomeServes;
    var calidus := CalidusArm(c, input);
    var owners := OwnerArm(input);
    var dreps := DrepArm(input);
    var committee := CommitteeArm(input.committee, input.claimedCommittee);
    var entries := calidus + owners + dreps + committee;
    assert Elements(entries) == RoleSet(c, input);
    out := CanonicalRoleEntries(entries);
    hide RoleSet, Supported, Ascending;
    forall e
      ensures e in RoleSet(c, input) <==> Supported(c, input, e)
    {
      RoleSetMeaning(c, input, e);
    }
  }
}
