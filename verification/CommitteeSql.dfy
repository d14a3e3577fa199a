/** The committee CTEs of the role query (`cogno-dbsync/src/dbsync.rs`), relationally: what they drop, and when
    dropping it leaves the badges alone. db-sync keys certificates by `committee_hash` row, the reduction by bytes. */
module CommitteeSql {
  import opened Prelude
  import opened Ordering
  import opened Roles
  import opened RoleReduction

  /** A `committee_hash` row: the same bytes may appear as a key hash and as a script hash. */
  datatype HashRow = HashRow(raw: Hash28, hasScript: bool)

  datatype MemberRow = MemberRow(hid: nat, exp: nat)

  datatype RegRow = RegRow(cold: nat, hot: nat, order: CertOrder)

  datatype DeregRow = DeregRow(cold: nat, order: CertOrder)

  /** `members` are the rows of the committee enacted at the as-of epoch (`cc_term`). */
  datatype Tables = Tables(
    hashes: map<nat, HashRow>,
    members: seq<MemberRow>,
    regs: seq<RegRow>,
    deregs: seq<DeregRow>,
    epoch: nat,
    maxTx: nat)

  /** Foreign keys resolve, and `(tx, cert)` identifies a registration certificate. */
  ghost predicate WellFormed(t: Tables) {
    (forall m :: m in t.members ==> m.hid in t.hashes)
    && (forall r :: r in t.regs ==> r.cold in t.hashes && r.hot in t.hashes)
    && (forall d :: d in t.deregs ==> d.cold in t.hashes)
    && forall a, b :: a in t.regs && b in t.regs && a.order == b.order ==> a == b
  }

  /** What the query returns: everything up to the reference, the seated rows' certificates, or only their newest. */
  datatype Scope = Everything | SeatedRows | NewestSeated

  ghost predicate SeatedRow(t: Tables, hid: nat) {
    exists m :: m in t.members && m.hid == hid
  }

  ghost predicate KeepsReg(t: Tables, scope: Scope, x: RegRow) {
    x in t.regs && x.order.tx <= t.maxTx
    && (scope != Everything ==> SeatedRow(t, x.cold))
    && (scope == NewestSeated ==> forall y :: y in t.regs && y.order.tx <= t.maxTx && y.cold == x.cold ==>
         !Older(x.order, y.order))
  }

  ghost predicate KeepsDereg(t: Tables, scope: Scope, x: DeregRow) {
    x in t.deregs && x.order.tx <= t.maxTx
    && (scope != Everything ==> SeatedRow(t, x.cold))
    && (scope == NewestSeated ==> forall y :: y in t.deregs && y.order.tx <= t.maxTx && y.cold == x.cold ==>
         !Older(x.order, y.order))
  }

  ghost function Member(t: Tables, m: MemberRow): CommitteeMember
    requires m.hid in t.hashes
  {
    CommitteeMember(t.hashes[m.hid].raw, t.hashes[m.hid].hasScript, m.exp)
  }

  ghost function Reg(t: Tables, x: RegRow): CommitteeRegistration
    requires x.cold in t.hashes && x.hot in t.hashes
  {
    CommitteeRegistration(t.hashes[x.cold].raw, t.hashes[x.hot].raw, t.hashes[x.hot].hasScript, x.order)
  }

  ghost function Dereg(t: Tables, x: DeregRow): CommitteeDeregistration
    requires x.cold in t.hashes
  {
    CommitteeDeregistration(t.hashes[x.cold].raw, x.order)
  }

  /** `cc` is a result of the query under a scope, in any row order. */
  ghost predicate Reads(t: Tables, scope: Scope, cc: CommitteeRead)
    requires WellFormed(t)
  {
    cc.epoch == t.epoch
    && (forall m :: m in cc.members <==> exists x :: x in t.members && m == Member(t, x))
    && (forall r :: r in cc.registrations <==> exists x :: x in t.regs && KeepsReg(t, scope, x) && r == Reg(t, x))
    && (forall d :: d in cc.deregistrations <==>
         exists x :: x in t.deregs && KeepsDereg(t, scope, x) && d == Dereg(t, x))
  }

  // ---------- the newest certificate of a row ----------

  lemma {:induction false} NewestRegOf(t: Tables, rows: seq<RegRow>, x: RegRow) returns (z: RegRow)
    requires x in rows && x.order.tx <= t.maxTx
    ensures z in rows && z.order.tx <= t.maxTx && z.cold == x.cold && !Older(z.order, x.order)
    ensures forall y :: y in rows && y.order.tx <= t.maxTx && y.cold == x.cold ==> !Older(z.order, y.order)
    decreases |rows|
  {
    z := x;
    for i := 0 to |rows|
      invariant z in rows && z.order.tx <= t.maxTx && z.cold == x.cold && !Older(z.order, x.order)
      invariant forall y :: y in rows[..i] && y.order.tx <= t.maxTx && y.cold == x.cold ==> !Older(z.order, y.order)
    {
      assert rows[..i + 1] == rows[..i] + [rows[i]];
      if rows[i].order.tx <= t.maxTx && rows[i].cold == x.cold && Older(z.order, rows[i].order) {
        z := rows[i];
      }
    }
    assert rows[..|rows|] == rows;
  }

  lemma NewestDeregOf(t: Tables, rows: seq<DeregRow>, x: DeregRow) returns (z: DeregRow)
    requires x in rows && x.order.tx <= t.maxTx
    ensures z in rows && z.order.tx <= t.maxTx && z.cold == x.cold && !Older(z.order, x.order)
    ensures forall y :: y in rows && y.order.tx <= t.maxTx && y.cold == x.cold ==> !Older(z.order, y.order)
  {
    z := x;
    for i := 0 to |rows|
      invariant z in rows && z.order.tx <= t.maxTx && z.cold == x.cold && !Older(z.order, x.order)
      invariant forall y :: y in rows[..i] && y.order.tx <= t.maxTx && y.cold == x.cold ==> !Older(z.order, y.order)
    {
      assert rows[..i + 1] == rows[..i] + [rows[i]];
      if rows[i].order.tx <= t.maxTx && rows[i].cold == x.cold && Older(z.order, rows[i].order) {
        z := rows[i];
      }
    }
    assert rows[..|rows|] == rows;
  }

  lemma OlderIsLess(a: CommitteeRegistration, b: CommitteeRegistration)
    ensures Older(a.order, b.order) ==> Less(RegKey(a), RegKey(b))
    ensures Less(RegKey(a), RegKey(b)) ==> !Older(b.order, a.order)
  {
    var x, y := [a.order.tx, a.order.cert], [b.order.tx, b.order.cert];
    var p, q := a.hot + [if a.hotIsScript then 1 else 0], b.hot + [if b.hotIsScript then 1 else 0];
    assert RegKey(a) == x + p && RegKey(b) == y + q;
    LessAppend(x, y, p, q);
    assert x[1..] == [a.order.cert] && y[1..] == [b.order.cert];
    LessSingle(a.order.cert, b.order.cert);
  }

  // ---------- DISTINCT ON keeps the badges ----------

  lemma RowOfReg(t: Tables, scope: Scope, cc: CommitteeRead, r: CommitteeRegistration) returns (x: RegRow)
    requires WellFormed(t) && Reads(t, scope, cc) && r in cc.registrations
    ensures x in t.regs && KeepsReg(t, scope, x) && r == Reg(t, x)
  {
    x :| x in t.regs && KeepsReg(t, scope, x) && r == Reg(t, x);
  }

  lemma RegOfRow(t: Tables, scope: Scope, cc: CommitteeRead, x: RegRow)
    requires WellFormed(t) && Reads(t, scope, cc) && KeepsReg(t, scope, x)
    ensures Reg(t, x) in cc.registrations
  {
  }

  /** The newest registration of some bytes survives `DISTINCT ON`. */
  lemma NewestSurvives(t: Tables, seated: CommitteeRead, narrow: CommitteeRead, r: CommitteeRegistration)
    requires WellFormed(t) && Reads(t, SeatedRows, seated) && Reads(t, NewestSeated, narrow)
    requires Newest(seated.registrations, r)
    ensures r in narrow.registrations
  {
    hide Reads, RegKey, Less, WellFormed;
    var x := RowOfReg(t, SeatedRows, seated, r);
    forall y | y in t.regs && y.order.tx <= t.maxTx && y.cold == x.cold
      ensures !Older(x.order, y.order)
    {
      assert KeepsReg(t, SeatedRows, y);
      RegOfRow(t, SeatedRows, seated, y);
      FormedReg(t, y);
      OlderIsLess(r, Reg(t, y));
    }
    RegOfRow(t, NewestSeated, narrow, x);
  }

  lemma FormedReg(t: Tables, y: RegRow)
    requires WellFormed(t) && y in t.regs
    ensures y.cold in t.hashes && y.hot in t.hashes
  {
  }

  /** What is newest among the survivors is newest among all. */
  lemma SurvivorIsNewest(t: Tables, seated: CommitteeRead, narrow: CommitteeRead, r: CommitteeRegistration)
    requires WellFormed(t) && Reads(t, SeatedRows, seated) && Reads(t, NewestSeated, narrow)
    requires Newest(narrow.registrations, r)
    ensures Newest(seated.registrations, r)
  {
    hide Reads, RegKey, Less, WellFormed;
    var x := RowOfReg(t, NewestSeated, narrow, r);
    assert KeepsReg(t, SeatedRows, x);
    RegOfRow(t, SeatedRows, seated, x);
    forall r' | r' in seated.registrations && r'.cold == r.cold
      ensures !Less(RegKey(r), RegKey(r'))
    {
      var y := RowOfReg(t, SeatedRows, seated, r');
      var z := NewestRegOf(t, t.regs, y);
      assert KeepsReg(t, NewestSeated, z);
      RegOfRow(t, NewestSeated, narrow, z);
      FormedReg(t, z);
      var s := Reg(t, z);
      assert s.cold == r.cold && !Less(RegKey(r), RegKey(s));
      SameOrderSameRow(t, y, z);
      if Older(r'.order, s.order) && Less(RegKey(r), RegKey(r')) {
        OlderIsLess(r', s);
        LessTransitive(RegKey(r), RegKey(r'), RegKey(s));
      }
    }
  }

  lemma SameOrderSameRow(t: Tables, y: RegRow, z: RegRow)
    requires WellFormed(t) && y in t.regs && z in t.regs && !Older(z.order, y.order)
    ensures y == z || Older(y.order, z.order)
  {
  }

  lemma WithdrawnSame(t: Tables, seated: CommitteeRead, narrow: CommitteeRead, r: CommitteeRegistration)
    requires WellFormed(t) && Reads(t, SeatedRows, seated) && Reads(t, NewestSeated, narrow)
    ensures Withdrawn(seated.deregistrations, r) <==> Withdrawn(narrow.deregistrations, r)
  {
    if Withdrawn(narrow.deregistrations, r) {
      var d :| d in narrow.deregistrations && d.cold == r.cold && Older(r.order, d.order);
      var x :| x in t.deregs && KeepsDereg(t, NewestSeated, x) && d == Dereg(t, x);
      assert KeepsDereg(t, SeatedRows, x);
      assert d in seated.deregistrations;
    }
    if Withdrawn(seated.deregistrations, r) {
      var d :| d in seated.deregistrations && d.cold == r.cold && Older(r.order, d.order);
      var x :| x in t.deregs && KeepsDereg(t, SeatedRows, x) && d == Dereg(t, x);
      var z := NewestDeregOf(t, t.deregs, x);
      assert KeepsDereg(t, NewestSeated, z);
      assert Dereg(t, z) in narrow.deregistrations;
      OlderTransitive(r.order, d.order, z.order);
    }
  }

  lemma SameSeats(t: Tables, s: Scope, s': Scope, a: CommitteeRead, b: CommitteeRead, cold: Bytes)
    requires WellFormed(t) && Reads(t, s, a) && Reads(t, s', b)
    ensures Seated(a.members, cold) <==> Seated(b.members, cold)
    ensures InTerm(a, cold) <==> InTerm(b, cold)
  {
    hide KeepsReg, KeepsDereg;
    assert forall m :: m in a.members <==> m in b.members;
  }

  /** Keeping one newest certificate per seated row keeps every badge, whatever bytes the rows share. */
  lemma DistinctOnKeepsBadges(t: Tables, seated: CommitteeRead, narrow: CommitteeRead, claimed: seq<Hash28>)
    requires WellFormed(t) && Reads(t, SeatedRows, seated) && Reads(t, NewestSeated, narrow)
    ensures CommitteeSet(seated, claimed) == CommitteeSet(narrow, claimed)
  {
    hide Reads, WellFormed, Badges;
    forall r
      ensures r in seated.registrations && Badges(seated, r) <==> r in narrow.registrations && Badges(narrow, r)
    {
      DistinctOnKeepsBadge(t, seated, narrow, r);
    }
  }

  lemma DistinctOnKeepsBadge(t: Tables, seated: CommitteeRead, narrow: CommitteeRead, r: CommitteeRegistration)
    requires WellFormed(t) && Reads(t, SeatedRows, seated) && Reads(t, NewestSeated, narrow)
    ensures r in seated.registrations && Badges(seated, r) <==> r in narrow.registrations && Badges(narrow, r)
  {
    hide Reads, WellFormed, Newest, Withdrawn, Seated, InTerm;
    SameSeats(t, SeatedRows, NewestSeated, seated, narrow, r.cold);
    WithdrawnSame(t, seated, narrow, r);
    if Newest(seated.registrations, r) {
      NewestSurvives(t, seated, narrow, r);
      NewestAmongFewer(t, seated, narrow, r);
    }
    if Newest(narrow.registrations, r) {
      SurvivorIsNewest(t, seated, narrow, r);
      NewestListed(seated.registrations, r);
    }
  }

  lemma NewestAmongFewer(t: Tables, seated: CommitteeRead, narrow: CommitteeRead, r: CommitteeRegistration)
    requires WellFormed(t) && Reads(t, SeatedRows, seated) && Reads(t, NewestSeated, narrow)
    requires Newest(seated.registrations, r) && r in narrow.registrations
    ensures Newest(narrow.registrations, r)
  {
    hide RegKey, Less;
    forall r' | r' in narrow.registrations
      ensures r' in seated.registrations
    {
      var x :| x in t.regs && KeepsReg(t, NewestSeated, x) && r' == Reg(t, x);
      assert KeepsReg(t, SeatedRows, x);
    }
  }

  // ---------- scoping by row is not scoping by bytes ----------

  /** A certificate whose cold row is not seated although another row with the same bytes is. */
  ghost predicate TwinReg(t: Tables, x: RegRow, cold: Bytes)
    requires WellFormed(t)
  {
    x in t.regs && x.order.tx <= t.maxTx && !SeatedRow(t, x.cold) && t.hashes[x.cold].raw == cold
  }

  ghost predicate TwinDereg(t: Tables, x: DeregRow, cold: Bytes)
    requires WellFormed(t)
  {
    x in t.deregs && x.order.tx <= t.maxTx && !SeatedRow(t, x.cold) && t.hashes[x.cold].raw == cold
  }

  /** Some unseated twin's certificate is newer than `r`. */
  ghost predicate TwinNewer(t: Tables, r: CommitteeRegistration)
    requires WellFormed(t)
  {
    (exists x :: TwinReg(t, x, r.cold) && Less(RegKey(r), RegKey(Reg(t, x))))
    || (exists x :: TwinDereg(t, x, r.cold) && Older(r.order, x.order))
  }

  /** A registration read by bytes comes from a seated row or from an unseated twin. */
  lemma FullRegSplit(t: Tables, full: CommitteeRead, seated: CommitteeRead, r: CommitteeRegistration)
    requires WellFormed(t) && Reads(t, Everything, full) && Reads(t, SeatedRows, seated)
    ensures r in full.registrations <==>
            r in seated.registrations || exists x :: TwinReg(t, x, r.cold) && r == Reg(t, x)
  {
    hide KeepsDereg;
    if r in full.registrations {
      var x :| x in t.regs && KeepsReg(t, Everything, x) && r == Reg(t, x);
      if SeatedRow(t, x.cold) {
        assert KeepsReg(t, SeatedRows, x);
      } else {
        assert TwinReg(t, x, r.cold);
      }
    }
    if r in seated.registrations {
      var x :| x in t.regs && KeepsReg(t, SeatedRows, x) && r == Reg(t, x);
      assert KeepsReg(t, Everything, x);
    }
    if x :| TwinReg(t, x, r.cold) && r == Reg(t, x) {
      assert KeepsReg(t, Everything, x);
    }
  }

  lemma FullWithdrawn(t: Tables, full: CommitteeRead, seated: CommitteeRead, r: CommitteeRegistration)
    requires WellFormed(t) && Reads(t, Everything, full) && Reads(t, SeatedRows, seated)
    ensures Withdrawn(full.deregistrations, r) <==>
            Withdrawn(seated.deregistrations, r) || exists x :: TwinDereg(t, x, r.cold) && Older(r.order, x.order)
  {
    hide KeepsReg;
    if Withdrawn(full.deregistrations, r) {
      var d :| d in full.deregistrations && d.cold == r.cold && Older(r.order, d.order);
      var x :| x in t.deregs && KeepsDereg(t, Everything, x) && d == Dereg(t, x);
      if SeatedRow(t, x.cold) {
        assert KeepsDereg(t, SeatedRows, x);
        assert d in seated.deregistrations;
      } else {
        assert TwinDereg(t, x, r.cold);
      }
    }
    if Withdrawn(seated.deregistrations, r) {
      var d :| d in seated.deregistrations && d.cold == r.cold && Older(r.order, d.order);
      var x :| x in t.deregs && KeepsDereg(t, SeatedRows, x) && d == Dereg(t, x);
      assert KeepsDereg(t, Everything, x);
      assert d in full.deregistrations;
    }
    if x :| TwinDereg(t, x, r.cold) && Older(r.order, x.order) {
      assert KeepsDereg(t, Everything, x);
      assert Dereg(t, x) in full.deregistrations;
    }
  }

  /** Exactly when a badge the row-scoped read gives is also given by the full read. */
  lemma RowScopeExact(t: Tables, full: CommitteeRead, seated: CommitteeRead, r: CommitteeRegistration)
    requires WellFormed(t) && Reads(t, Everything, full) && Reads(t, SeatedRows, seated)
    requires Badges(seated, r)
    ensures Badges(full, r) <==> !TwinNewer(t, r)
  {
    hide Reads, RegKey, Less, TwinReg, TwinDereg, Newest, Withdrawn, Seated, InTerm;
    SameSeats(t, Everything, SeatedRows, full, seated, r.cold);
    FullWithdrawn(t, full, seated, r);
    FullNewest(t, full, seated, r);
  }

  lemma FullNewest(t: Tables, full: CommitteeRead, seated: CommitteeRead, r: CommitteeRegistration)
    requires WellFormed(t) && Reads(t, Everything, full) && Reads(t, SeatedRows, seated)
    requires Newest(seated.registrations, r)
    ensures Newest(full.registrations, r) <==> !exists x :: TwinReg(t, x, r.cold) && Less(RegKey(r), RegKey(Reg(t, x)))
  {
    hide Reads, RegKey, Less;
    FullRegSplit(t, full, seated, r);
    if x :| TwinReg(t, x, r.cold) && Less(RegKey(r), RegKey(Reg(t, x))) {
      FullRegSplit(t, full, seated, Reg(t, x));
      assert Reg(t, x) in full.registrations;
    } else {
      forall r' | r' in full.registrations && r'.cold == r.cold
        ensures !Less(RegKey(r), RegKey(r'))
      {
        FullRegSplit(t, full, seated, r');
      }
    }
  }

  /** A badge of the full read survives row scoping exactly when its certificate is read at all. */
  lemma FullBadgeExact(t: Tables, full: CommitteeRead, seated: CommitteeRead, r: CommitteeRegistration)
    requires WellFormed(t) && Reads(t, Everything, full) && Reads(t, SeatedRows, seated)
    requires Badges(full, r)
    ensures Badges(seated, r) <==> r in seated.registrations
  {
    hide Reads, WellFormed, RegKey, Less;
    SameSeats(t, Everything, SeatedRows, full, seated, r.cold);
    FullWithdrawn(t, full, seated, r);
    forall r' | r' in seated.registrations
      ensures r' in full.registrations
    {
      FullRegSplit(t, full, seated, r');
    }
  }

  /** Every unseated twin's certificate is older than some registration of a seated row with the same bytes. */
  ghost predicate TwinsOutdated(t: Tables)
    requires WellFormed(t)
  {
    (forall x, m :: m in t.members && TwinReg(t, x, t.hashes[m.hid].raw) ==> Outdated(t, t.hashes[m.hid].raw, x.order))
    && forall x, m :: m in t.members && TwinDereg(t, x, t.hashes[m.hid].raw) ==>
       Outdated(t, t.hashes[m.hid].raw, x.order)
  }

  ghost predicate Outdated(t: Tables, cold: Bytes, order: CertOrder)
    requires WellFormed(t)
  {
    exists y :: KeepsReg(t, SeatedRows, y) && t.hashes[y.cold].raw == cold && Older(order, y.order)
  }

  lemma SeatedMember(t: Tables, scope: Scope, cc: CommitteeRead, cold: Bytes) returns (m: MemberRow)
    requires WellFormed(t) && Reads(t, scope, cc) && Seated(cc.members, cold)
    ensures m in t.members && t.hashes[m.hid].raw == cold
  {
    hide KeepsReg, KeepsDereg;
    var x :| x in cc.members && x.cold == cold;
    m :| m in t.members && x == Member(t, m);
  }

  /** An outdated order is older than the newest seated registration. */
  lemma OutdatedIsOlder(t: Tables, seated: CommitteeRead, r: CommitteeRegistration, order: CertOrder)
    requires WellFormed(t) && Reads(t, SeatedRows, seated) && Newest(seated.registrations, r)
             && Outdated(t, r.cold, order)
    ensures Older(order, r.order)
  {
    hide Reads, RegKey, Less;
    var y :| KeepsReg(t, SeatedRows, y) && t.hashes[y.cold].raw == r.cold && Older(order, y.order);
    RegOfRow(t, SeatedRows, seated, y);
    OlderIsLess(r, Reg(t, y));
  }

  lemma OutdatedNeverNewer(t: Tables, seated: CommitteeRead, r: CommitteeRegistration)
    requires WellFormed(t) && Reads(t, SeatedRows, seated) && Badges(seated, r) && TwinsOutdated(t)
    ensures !TwinNewer(t, r)
  {
    hide Reads, RegKey, Less, Outdated, Newest, InTerm, Withdrawn;
    var m := SeatedMember(t, SeatedRows, seated, r.cold);
    if x :| TwinReg(t, x, r.cold) && Less(RegKey(r), RegKey(Reg(t, x))) {
      OutdatedIsOlder(t, seated, r, x.order);
      OlderIsLess(r, Reg(t, x));
    }
    if x :| TwinDereg(t, x, r.cold) && Older(r.order, x.order) {
      OutdatedIsOlder(t, seated, r, x.order);
    }
  }

  lemma OutdatedNeverBadged(t: Tables, full: CommitteeRead, seated: CommitteeRead, r: CommitteeRegistration)
    requires WellFormed(t) && Reads(t, Everything, full) && Reads(t, SeatedRows, seated) && TwinsOutdated(t)
    requires Badges(full, r)
    ensures r in seated.registrations
  {
    hide Reads, RegKey, Less, TwinDereg, InTerm, Withdrawn;
    FullRegSplit(t, full, seated, r);
    var m := SeatedMember(t, Everything, full, r.cold);
    if x :| TwinReg(t, x, r.cold) && r == Reg(t, x) {
      var y :| KeepsReg(t, SeatedRows, y) && t.hashes[y.cold].raw == r.cold && Older(x.order, y.order);
      RegOfRow(t, SeatedRows, seated, y);
      FullRegSplit(t, full, seated, Reg(t, y));
      OlderIsLess(r, Reg(t, y));
    }
  }

  /** With every twin outdated, narrowing changes no badge for any claimed set. */
  lemma NarrowingKeepsBadges(t: Tables, full: CommitteeRead, narrow: CommitteeRead, seated: CommitteeRead,
                             claimed: seq<Hash28>)
    requires WellFormed(t) && Reads(t, Everything, full) && Reads(t, SeatedRows, seated)
             && Reads(t, NewestSeated, narrow)
    requires TwinsOutdated(t)
    ensures CommitteeSet(full, claimed) == CommitteeSet(narrow, claimed)
  {
    hide Reads, WellFormed, Badges, TwinsOutdated, TwinNewer;
    DistinctOnKeepsBadges(t, seated, narrow, claimed);
    forall r
      ensures r in full.registrations && Badges(full, r) <==> r in seated.registrations && Badges(seated, r)
    {
      FullRegSplit(t, full, seated, r);
      if Badges(seated, r) {
        OutdatedNeverNewer(t, seated, r);
        RowScopeExact(t, full, seated, r);
      }
      if Badges(full, r) {
        OutdatedNeverBadged(t, full, seated, r);
        FullBadgeExact(t, full, seated, r);
      }
    }
  }

  // ---------- the exact condition, seat by seat ----------

  /** The credential sits: some row seats it and every row that does is in term. */
  ghost predicate Sits(t: Tables, cold: Bytes)
    requires WellFormed(t)
  {
    (exists m :: m in t.members && t.hashes[m.hid].raw == cold)
    && forall m :: m in t.members && t.hashes[m.hid].raw == cold ==> Member(t, m).InTermAt(t.epoch)
  }

  /** `x` is the registration in force for some bytes: a key, and no certificate in scope is newer. */
  ghost predicate Stands(t: Tables, scope: Scope, x: RegRow, cold: Bytes)
    requires WellFormed(t)
  {
    KeepsReg(t, scope, x) && t.hashes[x.cold].raw == cold && !t.hashes[x.hot].hasScript
    && (forall y :: KeepsReg(t, scope, y) && t.hashes[y.cold].raw == cold ==> !Older(x.order, y.order))
    && forall d :: KeepsDereg(t, scope, d) && t.hashes[d.cold].raw == cold ==> !Older(x.order, d.order)
  }

  /** Some unseated twin's certificate is newer. */
  ghost predicate Overtaken(t: Tables, x: RegRow, cold: Bytes)
    requires WellFormed(t)
  {
    (exists y :: TwinReg(t, y, cold) && Older(x.order, y.order))
    || exists d :: TwinDereg(t, d, cold) && Older(x.order, d.order)
  }

  /** An unseated twin's registration is in force for the bytes. */
  ghost predicate TwinStands(t: Tables, y: RegRow, cold: Bytes)
    requires WellFormed(t)
  {
    TwinReg(t, y, cold) && Stands(t, Everything, y, cold)
  }

  /** The registrations in force for a seat and for its unseated twins differ in no hot key: what a twin overtakes
      it names again, and what it names the seat named already. */
  ghost predicate Undisturbed(t: Tables, cold: Bytes)
    requires WellFormed(t)
  {
    (forall x :: Stands(t, SeatedRows, x, cold) && Overtaken(t, x, cold) ==>
       exists y :: TwinStands(t, y, cold) && t.hashes[y.hot].raw == t.hashes[x.hot].raw)
    && forall y :: TwinStands(t, y, cold) ==>
         exists x :: Stands(t, SeatedRows, x, cold) && t.hashes[x.hot].raw == t.hashes[y.hot].raw
  }

  /** Some registration in force names this hot key. */
  ghost predicate InForce(t: Tables, scope: Scope, cold: Bytes, hot: Bytes)
    requires WellFormed(t)
  {
    exists x :: Stands(t, scope, x, cold) && t.hashes[x.hot].raw == hot
  }

  lemma StandsOnce(t: Tables, scope: Scope, x: RegRow, y: RegRow, cold: Bytes)
    requires WellFormed(t) && Stands(t, scope, x, cold) && Stands(t, scope, y, cold)
    ensures x == y
  {
    SameOrderSameRow(t, x, y);
  }

  /** By bytes, what stands is a seated registration no twin overtakes, or a twin's own. */
  lemma FullStands(t: Tables, x: RegRow, cold: Bytes)
    requires WellFormed(t)
    ensures Stands(t, Everything, x, cold)
       <==> (Stands(t, SeatedRows, x, cold) && !Overtaken(t, x, cold)) || TwinStands(t, x, cold)
  {
    hide Older;
    if Stands(t, SeatedRows, x, cold) && !Overtaken(t, x, cold) {
      FullKeeps(t, x);
      forall y | KeepsReg(t, Everything, y) && t.hashes[y.cold].raw == cold
        ensures !Older(x.order, y.order)
      {
        assert TwinReg(t, y, cold) || KeepsReg(t, SeatedRows, y);
      }
      forall d | KeepsDereg(t, Everything, d) && t.hashes[d.cold].raw == cold
        ensures !Older(x.order, d.order)
      {
        assert TwinDereg(t, d, cold) || KeepsDereg(t, SeatedRows, d);
      }
    }
    if Stands(t, Everything, x, cold) && SeatedRow(t, x.cold) {
      SeatedStands(t, x, cold);
    }
  }

  lemma FullKeeps(t: Tables, x: RegRow)
    requires KeepsReg(t, SeatedRows, x)
    ensures KeepsReg(t, Everything, x)
  {
  }

  lemma SeatedStands(t: Tables, x: RegRow, cold: Bytes)
    requires WellFormed(t) && Stands(t, Everything, x, cold) && SeatedRow(t, x.cold)
    ensures Stands(t, SeatedRows, x, cold) && !Overtaken(t, x, cold)
  {
    hide Older;
    forall y | KeepsReg(t, SeatedRows, y) || TwinReg(t, y, cold)
      ensures KeepsReg(t, Everything, y)
    {
    }
    forall d | KeepsDereg(t, SeatedRows, d) || TwinDereg(t, d, cold)
      ensures KeepsDereg(t, Everything, d)
    {
    }
  }

  /** Certificates alone: the hot key in force is the same with and without the twins exactly when undisturbed. */
  lemma UndisturbedExact(t: Tables, cold: Bytes)
    requires WellFormed(t)
    ensures (forall hot :: InForce(t, Everything, cold, hot) <==> InForce(t, SeatedRows, cold, hot)) <==>
            Undisturbed(t, cold)
  {
    hide WellFormed, Stands, Overtaken, TwinStands;
    if Undisturbed(t, cold) {
      forall hot
        ensures InForce(t, Everything, cold, hot) <==> InForce(t, SeatedRows, cold, hot)
      {
        UndisturbedKeeps(t, cold, hot);
      }
    }
    if forall hot :: InForce(t, Everything, cold, hot) <==> InForce(t, SeatedRows, cold, hot) {
      KeptUndisturbed(t, cold);
    }
  }

  lemma UndisturbedKeeps(t: Tables, cold: Bytes, hot: Bytes)
    requires WellFormed(t) && Undisturbed(t, cold)
    ensures InForce(t, Everything, cold, hot) <==> InForce(t, SeatedRows, cold, hot)
  {
    if x :| Stands(t, Everything, x, cold) && t.hashes[x.hot].raw == hot {
      FullStands(t, x, cold);
      hide Stands, Overtaken;
      assert InForce(t, SeatedRows, cold, hot);
    }
    if x :| Stands(t, SeatedRows, x, cold) && t.hashes[x.hot].raw == hot {
      FullStands(t, x, cold);
      hide Stands, Overtaken;
      assert InForce(t, Everything, cold, hot);
    }
  }

  lemma KeptUndisturbed(t: Tables, cold: Bytes)
    requires WellFormed(t)
    requires forall hot :: InForce(t, Everything, cold, hot) <==> InForce(t, SeatedRows, cold, hot)
    ensures Undisturbed(t, cold)
  {
    forall x | Stands(t, SeatedRows, x, cold) && Overtaken(t, x, cold)
      ensures exists y :: TwinStands(t, y, cold) && t.hashes[y.hot].raw == t.hashes[x.hot].raw
    {
      assert InForce(t, Everything, cold, t.hashes[x.hot].raw);
      var y :| Stands(t, Everything, y, cold) && t.hashes[y.hot].raw == t.hashes[x.hot].raw;
      FullStands(t, y, cold);
      if Stands(t, SeatedRows, y, cold) {
        StandsOnce(t, SeatedRows, x, y, cold);
      }
    }
    forall y | TwinStands(t, y, cold)
      ensures exists x :: Stands(t, SeatedRows, x, cold) && t.hashes[x.hot].raw == t.hashes[y.hot].raw
    {
      assert InForce(t, Everything, cold, t.hashes[y.hot].raw);
    }
  }

  /** What one seat contributes to the reduction, claims aside. */
  ghost predicate SeatNames(cc: CommitteeRead, cold: Bytes, hot: Bytes) {
    exists r :: r in cc.registrations && Badges(cc, r) && r.cold == cold && r.hot == hot
  }

  lemma SitsIsSeated(t: Tables, scope: Scope, cc: CommitteeRead, cold: Bytes)
    requires WellFormed(t) && Reads(t, scope, cc)
    ensures Sits(t, cold) <==> Seated(cc.members, cold) && InTerm(cc, cold)
  {
    hide KeepsReg, KeepsDereg;
    forall x | x in t.members
      ensures Member(t, x) in cc.members && Member(t, x).cold == t.hashes[x.hid].raw
    {
    }
    if m :| m in cc.members && m.cold == cold {
      var x :| x in t.members && m == Member(t, x);
    }
  }

  lemma RegOrders(t: Tables, x: RegRow, y: RegRow)
    requires WellFormed(t) && x in t.regs && y in t.regs
    ensures Less(RegKey(Reg(t, x)), RegKey(Reg(t, y))) <==> Older(x.order, y.order)
  {
    OlderIsLess(Reg(t, x), Reg(t, y));
    LessIrreflexive(RegKey(Reg(t, x)));
    hide RegKey, Less;
    if !Older(y.order, x.order) {
      SameOrderSameRow(t, x, y);
    }
  }

  lemma StandsIsNewest(t: Tables, scope: Scope, cc: CommitteeRead, x: RegRow, cold: Bytes)
    requires WellFormed(t) && Reads(t, scope, cc) && KeepsReg(t, scope, x) && t.hashes[x.cold].raw == cold
    ensures Newest(cc.registrations, Reg(t, x))
       <==> forall y :: KeepsReg(t, scope, y) && t.hashes[y.cold].raw == cold ==> !Older(x.order, y.order)
  {
    hide Reads, RegKey, Less, Older;
    RegOfRow(t, scope, cc, x);
    if Newest(cc.registrations, Reg(t, x)) {
      forall y | KeepsReg(t, scope, y) && t.hashes[y.cold].raw == cold
        ensures !Older(x.order, y.order)
      {
        RegOfRow(t, scope, cc, y);
        RegOrders(t, x, y);
      }
    }
    if forall y :: KeepsReg(t, scope, y) && t.hashes[y.cold].raw == cold ==> !Older(x.order, y.order) {
      forall r | r in cc.registrations && r.cold == cold
        ensures !Less(RegKey(Reg(t, x)), RegKey(r))
      {
        var y := RowOfReg(t, scope, cc, r);
        RegOrders(t, x, y);
      }
    }
  }

  lemma StandsIsNotWithdrawn(t: Tables, scope: Scope, cc: CommitteeRead, x: RegRow, cold: Bytes)
    requires WellFormed(t) && Reads(t, scope, cc) && x in t.regs && t.hashes[x.cold].raw == cold
    ensures !Withdrawn(cc.deregistrations, Reg(t, x))
       <==> forall d :: KeepsDereg(t, scope, d) && t.hashes[d.cold].raw == cold ==> !Older(x.order, d.order)
  {
    hide KeepsReg, Older;
    forall d | KeepsDereg(t, scope, d)
      ensures Dereg(t, d) in cc.deregistrations
    {
    }
    if d :| d in cc.deregistrations && d.cold == cold && Older(x.order, d.order) {
      var y :| y in t.deregs && KeepsDereg(t, scope, y) && d == Dereg(t, y);
    }
  }

  /** A sitting credential badges exactly the hot key in force for its bytes. */
  lemma NamesInForce(t: Tables, scope: Scope, cc: CommitteeRead, cold: Bytes, hot: Bytes)
    requires WellFormed(t) && Reads(t, scope, cc) && Sits(t, cold)
    ensures SeatNames(cc, cold, hot) <==> InForce(t, scope, cold, hot)
  {
    hide Reads, Newest, Withdrawn, Sits, Seated, InTerm, Older;
    SitsIsSeated(t, scope, cc, cold);
    if r :| r in cc.registrations && Badges(cc, r) && r.cold == cold && r.hot == hot {
      var x := RowOfReg(t, scope, cc, r);
      StandsIsNewest(t, scope, cc, x, cold);
      StandsIsNotWithdrawn(t, scope, cc, x, cold);
      assert Stands(t, scope, x, cold);
    }
    if x :| Stands(t, scope, x, cold) && t.hashes[x.hot].raw == hot {
      StandsIsNewest(t, scope, cc, x, cold);
      StandsIsNotWithdrawn(t, scope, cc, x, cold);
      RegOfRow(t, scope, cc, x);
      assert Badges(cc, Reg(t, x));
    }
  }

  /** Narrowing leaves a sitting credential's hot key alone exactly when its certificates are undisturbed. */
  lemma SeatExact(t: Tables, full: CommitteeRead, seated: CommitteeRead, narrow: CommitteeRead, cold: Bytes)
    requires WellFormed(t) && Reads(t, Everything, full) && Reads(t, SeatedRows, seated)
             && Reads(t, NewestSeated, narrow)
    requires Sits(t, cold)
    ensures (forall hot :: SeatNames(full, cold, hot) <==> SeatNames(narrow, cold, hot)) <==> Undisturbed(t, cold)
  {
    hide WellFormed, Reads, Sits, Undisturbed, InForce, SeatNames;
    forall hot
      ensures SeatNames(full, cold, hot) <==> InForce(t, Everything, cold, hot)
      ensures SeatNames(narrow, cold, hot) <==> InForce(t, SeatedRows, cold, hot)
    {
      NamesInForce(t, Everything, full, cold, hot);
      NamesInForce(t, SeatedRows, seated, cold, hot);
      DistinctOnKeepsSeats(t, seated, narrow, cold, hot);
    }
    UndisturbedExact(t, cold);
  }

  lemma DistinctOnKeepsSeats(t: Tables, seated: CommitteeRead, narrow: CommitteeRead, cold: Bytes, hot: Bytes)
    requires WellFormed(t) && Reads(t, SeatedRows, seated) && Reads(t, NewestSeated, narrow)
    ensures SeatNames(seated, cold, hot) <==> SeatNames(narrow, cold, hot)
  {
    hide WellFormed, Reads, Badges;
    if r :| r in seated.registrations && Badges(seated, r) && r.cold == cold && r.hot == hot {
      DistinctOnKeepsBadge(t, seated, narrow, r);
    }
    if r :| r in narrow.registrations && Badges(narrow, r) && r.cold == cold && r.hot == hot {
      DistinctOnKeepsBadge(t, seated, narrow, r);
    }
  }

  lemma OnlySittersName(t: Tables, scope: Scope, cc: CommitteeRead, cold: Bytes, hot: Bytes)
    requires WellFormed(t) && Reads(t, scope, cc) && SeatNames(cc, cold, hot)
    ensures Sits(t, cold)
  {
    hide WellFormed, Reads, Newest, Withdrawn, Seated, InTerm;
    SitsIsSeated(t, scope, cc, cold);
  }

  /** No seat changes under narrowing exactly when no sitting credential is disturbed; and then neither does the
      result, for any claimed set. */
  lemma NarrowingExact(t: Tables, full: CommitteeRead, seated: CommitteeRead, narrow: CommitteeRead)
    requires WellFormed(t) && Reads(t, Everything, full) && Reads(t, SeatedRows, seated)
             && Reads(t, NewestSeated, narrow)
    ensures (forall cold, hot :: SeatNames(full, cold, hot) <==> SeatNames(narrow, cold, hot))
       <==> forall cold :: Sits(t, cold) ==> Undisturbed(t, cold)
    ensures (forall cold :: Sits(t, cold) ==> Undisturbed(t, cold)) ==>
              forall claimed :: CommitteeSet(full, claimed) == CommitteeSet(narrow, claimed)
  {
    hide WellFormed, Reads, Sits, Undisturbed, SeatNames, CommitteeSet;
    forall cold | Sits(t, cold)
      ensures (forall hot :: SeatNames(full, cold, hot) <==> SeatNames(narrow, cold, hot)) <==> Undisturbed(t, cold)
    {
      SeatExact(t, full, seated, narrow, cold);
    }
    forall cold, hot | SeatNames(full, cold, hot) || SeatNames(narrow, cold, hot)
      ensures Sits(t, cold)
    {
      if SeatNames(full, cold, hot) {
        OnlySittersName(t, Everything, full, cold, hot);
      } else {
        OnlySittersName(t, NewestSeated, narrow, cold, hot);
      }
    }
    if forall cold, hot :: SeatNames(full, cold, hot) <==> SeatNames(narrow, cold, hot) {
      forall claimed
        ensures CommitteeSet(full, claimed) == CommitteeSet(narrow, claimed)
      {
        SeatsMakeTheSet(full, narrow, claimed);
      }
    }
  }

  lemma SeatsMakeTheSet(a: CommitteeRead, b: CommitteeRead, claimed: seq<Hash28>)
    requires forall cold, hot :: SeatNames(a, cold, hot) <==> SeatNames(b, cold, hot)
    ensures CommitteeSet(a, claimed) == CommitteeSet(b, claimed)
  {
    hide Badges;
    forall r | r in a.registrations && Badges(a, r)
      ensures SeatNames(b, r.cold, r.hot)
    {
      assert SeatNames(a, r.cold, r.hot);
    }
    forall r | r in b.registrations && Badges(b, r)
      ensures SeatNames(a, r.cold, r.hot)
    {
      assert SeatNames(b, r.cold, r.hot);
    }
    forall e | e in CommitteeSet(a, claimed)
      ensures e in CommitteeSet(b, claimed)
    {
      var r :| r in a.registrations && Badges(a, r) && r.hot in claimed && e == CommitteeEntry(r.hot);
      var r' :| r' in b.registrations && Badges(b, r') && r'.cold == r.cold && r'.hot == r.hot;
    }
    forall e | e in CommitteeSet(b, claimed)
      ensures e in CommitteeSet(a, claimed)
    {
      var r :| r in b.registrations && Badges(b, r) && r.hot in claimed && e == CommitteeEntry(r.hot);
      var r' :| r' in a.registrations && Badges(a, r') && r'.cold == r.cold && r'.hot == r.hot;
    }
  }

  // ---------- the twin that breaks it ----------

  const COLD: Hash28 := seq(28, _ => 1)
  const HOT_A: Hash28 := seq(28, _ => 2)
  const HOT_B: Hash28 := seq(28, _ => 3)

  /** The seated key-hash row registered hot key A; an unseated script row with the same bytes registered B later. */
  const TWINS: Tables := Tables(
    map[0 := HashRow(COLD, false), 1 := HashRow(COLD, true), 2 := HashRow(HOT_A, false), 3 := HashRow(HOT_B, false)],
    [MemberRow(0, 10)],
    [RegRow(0, 2, CertOrder(1, 0)), RegRow(1, 3, CertOrder(2, 0))],
    [],
    5,
    9)

  const TWINS_FULL: CommitteeRead := CommitteeRead(
    5,
    [CommitteeMember(COLD, false, 10)],
    [CommitteeRegistration(COLD, HOT_A, false, CertOrder(1, 0)),
     CommitteeRegistration(COLD, HOT_B, false, CertOrder(2, 0))],
    [])

  const TWINS_NARROW: CommitteeRead :=
    TWINS_FULL.(registrations := [CommitteeRegistration(COLD, HOT_A, false, CertOrder(1, 0))])

  lemma TwinsRows()
    ensures WellFormed(TWINS)
    ensures var a, b := TWINS.regs[0], TWINS.regs[1];
            TWINS.regs == [a, b] && Reg(TWINS, a) == TWINS_FULL.registrations[0]
              && Reg(TWINS, b) == TWINS_FULL.registrations[1]
            && KeepsReg(TWINS, Everything, a) && KeepsReg(TWINS, Everything, b)
            && KeepsReg(TWINS, NewestSeated, a) && !KeepsReg(TWINS, NewestSeated, b)
  {
    var a, b := TWINS.regs[0], TWINS.regs[1];
    assert MemberRow(0, 10) in TWINS.members;
    assert SeatedRow(TWINS, 0) && !SeatedRow(TWINS, 1);
    assert a in TWINS.regs && b in TWINS.regs && TWINS.regs == [a, b];
  }

  lemma TwinsAreReads()
    ensures WellFormed(TWINS) && Reads(TWINS, Everything, TWINS_FULL) && Reads(TWINS, NewestSeated, TWINS_NARROW)
  {
    TwinsRows();
    hide KeepsReg, KeepsDereg;
    assert TWINS.members == [MemberRow(0, 10)] && MemberRow(0, 10) in TWINS.members;
    assert Member(TWINS, MemberRow(0, 10)) == CommitteeMember(COLD, false, 10);
    assert TWINS.regs[0] in TWINS.regs && TWINS.regs[1] in TWINS.regs;
  }

  /** The two scopings can disagree: one badges B, the other A. */
  lemma TwinsDisagree()
    ensures CommitteeSet(TWINS_FULL, [HOT_A, HOT_B]) != CommitteeSet(TWINS_NARROW, [HOT_A, HOT_B])
  {
    var ra, rb := TWINS_FULL.registrations[0], TWINS_FULL.registrations[1];
    assert HOT_A[0] != HOT_B[0];
    OlderIsLess(ra, rb);
    LessIrreflexive(RegKey(ra));
    hide RegKey, Less;
    assert TWINS_NARROW.registrations == [ra];
    assert TWINS_NARROW.members == [CommitteeMember(COLD, false, 10)];
    assert CommitteeMember(COLD, false, 10) in TWINS_NARROW.members;
    assert Badges(TWINS_NARROW, ra);
    assert CommitteeEntry(HOT_A) in CommitteeSet(TWINS_NARROW, [HOT_A, HOT_B]);
    assert !Badges(TWINS_FULL, ra) by {
      assert rb in TWINS_FULL.registrations;
    }
    assert CommitteeEntry(HOT_A) !in CommitteeSet(TWINS_FULL, [HOT_A, HOT_B]);
  }

  /** Nobody claiming anything means no badge, so gating the block on a non-empty claimed set is free. */
  lemma NoClaimsNoBadges(cc: CommitteeRead)
    ensures CommitteeSet(cc, []) == {}
  {
  }
}
