/** What the role set holds, entry by entry, in terms of the rows that were read. */
module RoleFields {
  import opened Prelude
  import opened Ordering
  import Cbor
  import opened Calidus
  import opened Roles

  // ---------- stake ----------

  /** The id's last row carries `w`; an id without a row weighs nothing. */
  ghost predicate Stakes(rows: seq<(Hash28, nat)>, id: Bytes, w: nat) {
    LastRow(rows, id, w) || (w == 0 && NoRow(rows, id))
  }

  ghost predicate LastRow(rows: seq<(Hash28, nat)>, id: Bytes, w: nat) {
    exists i :: 0 <= i < |rows| && rows[i].0 == id && rows[i].1 == w && LastAt(rows, id, i)
  }

  ghost predicate LastAt(rows: seq<(Hash28, nat)>, id: Bytes, i: nat) {
    forall j :: i < j < |rows| ==> rows[j].0 != id
  }

  ghost predicate NoRow(rows: seq<(Hash28, nat)>, id: Bytes) {
    forall i :: 0 <= i < |rows| ==> rows[i].0 != id
  }

  /** Reading a table last-row-wins. */
  lemma {:induction false} LastRowMeaning(rows: seq<(Hash28, nat)>, id: Bytes, w: nat)
    ensures id in StakeMap(rows) && StakeMap(rows)[id] == w <==> LastRow(rows, id, w)
    ensures id !in StakeMap(rows) <==> NoRow(rows, id)
  {
    if rows != [] {
      hide LastRow, NoRow;
      LastRowMeaning(rows[..|rows| - 1], id, w);
      LastRowSnoc(rows, id, w);
    }
  }

  lemma LastRowSnoc(rows: seq<(Hash28, nat)>, id: Bytes, w: nat)
    requires rows != []
    ensures var front, last := rows[..|rows| - 1], rows[|rows| - 1];
            (LastRow(rows, id, w) <==> if last.0 == id then last.1 == w else LastRow(front, id, w))
            && (NoRow(rows, id) <==> last.0 != id && NoRow(front, id))
  {
    var front, last := rows[..|rows| - 1], rows[|rows| - 1];
    assert forall i :: 0 <= i < |front| ==> front[i] == rows[i];
    if last.0 != id {
      forall i | 0 <= i < |front|
        ensures LastAt(rows, id, i) <==> LastAt(front, id, i)
      {
      }
    } else {
      assert LastAt(rows, id, |rows| - 1);
    }
  }

  lemma WeightMeaning(rows: seq<(Hash28, nat)>, id: Bytes, w: nat)
    ensures Weight(rows, id) == w <==> Stakes(rows, id, w)
  {
    hide StakeMap, LastRow, NoRow;
    LastRowMeaning(rows, id, w);
  }

  // ---------- the Calidus arm ----------

  /** Row `i` verifies as `r`, and of the rows that verify for `r`'s pool it is the earliest with the highest nonce. */
  ghost predicate WinsAt(c: Crypto, regs: seq<Bytes>, i: int, r: Registration) {
    0 <= i < |regs| && VerifyRegistration(c, regs[i]) == Ok(r)
    && forall j :: 0 <= j < |regs| ==> Yields(c, regs[j], r, i, j)
  }

  predicate Yields(c: Crypto, b: Bytes, r: Registration, i: int, j: int) {
    var other := VerifyRegistration(c, b);
    other.Ok? && other.value.poolId == r.poolId ==>
      other.value.nonce < r.nonce || (other.value.nonce == r.nonce && i <= j)
  }

  ghost predicate NoneFor(c: Crypto, regs: seq<Bytes>, pool: Bytes) {
    forall j :: 0 <= j < |regs| && VerifyRegistration(c, regs[j]).Ok? ==>
                  VerifyRegistration(c, regs[j]).value.poolId != pool
  }

  /** The last row wins when it verifies for the pool and beats the best so far. */
  predicate Beats(last: Result<Registration, Cbor.Error>, prior: Option<Registration>, pool: Bytes) {
    last.Ok? && last.value.poolId == pool && (prior.None? || last.value.nonce > prior.value.nonce)
  }

  lemma BestSnoc(c: Crypto, regs: seq<Bytes>, pool: Bytes)
    requires regs != []
    ensures var n := |regs| - 1;
            var last, prior := VerifyRegistration(c, regs[n]), Best(VerifiedRegs(c, regs[..n]), pool);
            Best(VerifiedRegs(c, regs), pool) == if Beats(last, prior, pool) then Some(last.value) else prior
  {
    hide VerifyRegistration;
    var n := |regs| - 1;
    var vs, last := VerifiedRegs(c, regs[..n]), VerifyRegistration(c, regs[n]);
    if last.Ok? {
      assert (vs + [last.value])[..|vs|] == vs;
    } else {
      assert vs + [] == vs;
    }
  }

  lemma StillWins(c: Crypto, regs: seq<Bytes>, i: int, r: Registration)
    requires regs != [] && WinsAt(c, regs[..|regs| - 1], i, r)
    requires !Beats(VerifyRegistration(c, regs[|regs| - 1]), Some(r), r.poolId)
    ensures WinsAt(c, regs, i, r)
  {
    hide VerifyRegistration;
    var front := regs[..|regs| - 1];
    assert forall j :: 0 <= j < |front| ==> regs[j] == front[j];
  }

  lemma NowWins(c: Crypto, regs: seq<Bytes>, r: Registration, i: int, prior: Option<Registration>)
    requires regs != [] && VerifyRegistration(c, regs[|regs| - 1]) == Ok(r)
    requires match prior
             case Some(p) => WinsAt(c, regs[..|regs| - 1], i, p) && p.poolId == r.poolId && p.nonce < r.nonce
             case None => NoneFor(c, regs[..|regs| - 1], r.poolId)
    ensures WinsAt(c, regs, |regs| - 1, r)
  {
    hide VerifyRegistration;
    var front := regs[..|regs| - 1];
    forall j | 0 <= j < |regs|
      ensures Yields(c, regs[j], r, |regs| - 1, j)
    {
      if j < |front| {
        assert regs[j] == front[j];
      }
    }
  }

  lemma StillNone(c: Crypto, regs: seq<Bytes>, pool: Bytes)
    requires regs != [] && NoneFor(c, regs[..|regs| - 1], pool)
    requires !Beats(VerifyRegistration(c, regs[|regs| - 1]), None, pool)
    ensures NoneFor(c, regs, pool)
  {
    hide VerifyRegistration;
    var front := regs[..|regs| - 1];
    assert forall j :: 0 <= j < |front| ==> regs[j] == front[j];
  }

  lemma {:induction false} BestWins(c: Crypto, regs: seq<Bytes>, pool: Bytes) returns (i: int)
    ensures match Best(VerifiedRegs(c, regs), pool)
            case Some(r) => r.poolId == pool && WinsAt(c, regs, i, r)
            case None => NoneFor(c, regs, pool)
  {
    i := 0;
    if regs != [] {
      hide VerifyRegistration, VerifiedRegs, Best, WinsAt, NoneFor;
      var n := |regs| - 1;
      var last, prior := VerifyRegistration(c, regs[n]), Best(VerifiedRegs(c, regs[..n]), pool);
      i := BestWins(c, regs[..n], pool);
      BestSnoc(c, regs, pool);
      if Beats(last, prior, pool) {
        NowWins(c, regs, last.value, i, prior);
        i := n;
      } else if prior.Some? {
        StillWins(c, regs, i, prior.value);
      } else {
        StillNone(c, regs, pool);
      }
    }
  }

  lemma WinsUnique(c: Crypto, regs: seq<Bytes>, i: int, r: Registration, i': int, r': Registration)
    requires WinsAt(c, regs, i, r) && WinsAt(c, regs, i', r') && r.poolId == r'.poolId
    ensures r == r'
  {
    hide VerifyRegistration;
    assert Yields(c, regs[i'], r, i, i') && Yields(c, regs[i], r', i', i);
  }

  lemma BestMeaning(c: Crypto, regs: seq<Bytes>, pool: Bytes, r: Registration)
    ensures Best(VerifiedRegs(c, regs), pool) == Some(r) <==> r.poolId == pool && exists i :: WinsAt(c, regs, i, r)
  {
    hide VerifyRegistration, VerifiedRegs, Best;
    var k := BestWins(c, regs, pool);
    if i :| r.poolId == pool && WinsAt(c, regs, i, r) {
      if Best(VerifiedRegs(c, regs), pool).Some? {
        WinsUnique(c, regs, i, r, k, Best(VerifiedRegs(c, regs), pool).value);
      }
    }
  }

  // ---------- the committee arm ----------

  /** `a` stands after `b`: later transaction, then later certificate, then greater hot key, then script over key. */
  predicate Supersedes(a: CommitteeRegistration, b: CommitteeRegistration) {
    a.order.tx > b.order.tx || (a.order.tx == b.order.tx &&
      (a.order.cert > b.order.cert || (a.order.cert == b.order.cert &&
        (Less(b.hot, a.hot) || (a.hot == b.hot && a.hotIsScript && !b.hotIsScript)))))
  }

  /**
    * The registration puts a hot key to work: its cold key is seated, every row of that seat is in term through its
    * expiration epoch, no registration of the cold key supersedes it, no resignation is later, and it is no script.
    */
  ghost predicate Serves(cc: CommitteeRead, r: CommitteeRegistration) {
    r in cc.registrations && !r.hotIsScript
    && (exists m :: m in cc.members && m.cold == r.cold)
    && (forall m :: m in cc.members && m.cold == r.cold ==> cc.epoch <= m.expirationEpoch)
    && (forall other :: other in cc.registrations && other.cold == r.cold ==> !Supersedes(other, r))
    && forall d :: d in cc.deregistrations && d.cold == r.cold ==>
                     d.order.tx < r.order.tx || (d.order.tx == r.order.tx && d.order.cert <= r.order.cert)
  }

  lemma SupersedesMeaning(a: CommitteeRegistration, b: CommitteeRegistration)
    ensures Supersedes(a, b) <==> Less(RegKey(b), RegKey(a))
  {
    hide Less;
    RegKeyLess(b, a);
    var x, y := if a.hotIsScript then 1 else 0, if b.hotIsScript then 1 else 0;
    LessAppend(b.hot, a.hot, [y], [x]);
    LessSingle(y, x);
  }

  lemma ServesMeaning(cc: CommitteeRead, r: CommitteeRegistration)
    ensures Serves(cc, r) <==> r in cc.registrations && Badges(cc, r)
  {
    hide Less, Supersedes;
    forall other
      ensures Supersedes(other, r) <==> Less(RegKey(r), RegKey(other))
    {
      SupersedesMeaning(other, r);
    }
  }

  // ---------- the four arms ----------

  /** The pool's winning registration names this hot key. */
  ghost predicate Wins(c: Crypto, regs: seq<Bytes>, pool: Hash28, keyHash: Hash28) {
    exists i, r :: WinsAt(c, regs, i, r) && r.poolId == pool && r.keyHash == keyHash
  }

  ghost predicate SomeServes(cc: CommitteeRead, hot: Hash28) {
    exists r :: Serves(cc, r) && r.hot == hot
  }

  lemma CalidusMeaning(c: Crypto, input: RoleInput, e: RoleEntry)
    ensures e in CalidusSet(c, input) <==>
            e.source == SpoCalidus && e.id in input.activePools && e.credential in input.claimedCalidus
            && Wins(c, input.registrations, e.id, e.credential) && Stakes(input.poolStake, e.id, e.weight)
  {
    hide VerifiedRegs, Best, WinsAt, Weight, Stakes;
    var vs := VerifiedRegs(c, input.registrations);
    WeightMeaning(input.poolStake, e.id, e.weight);
    if e in CalidusSet(c, input) {
      var p :| p in input.activePools && CalidusEmits(input, vs, p)
               && e == CalidusEntry(input.poolStake, Best(vs, p).value);
      BestMeaning(c, input.registrations, p, Best(vs, p).value);
    }
    if e.source == SpoCalidus && e.id in input.activePools && e.credential in input.claimedCalidus
       && Wins(c, input.registrations, e.id, e.credential) && Stakes(input.poolStake, e.id, e.weight) {
      var i, r :| WinsAt(c, input.registrations, i, r) && r.poolId == e.id && r.keyHash == e.credential;
      BestMeaning(c, input.registrations, e.id, r);
      assert CalidusEmits(input, vs, e.id) && e == CalidusEntry(input.poolStake, r);
    }
  }

  lemma OwnerMeaning(input: RoleInput, e: RoleEntry)
    ensures e in OwnerSet(input) <==>
            e.source == SpoOwner && (e.credential, e.id) in input.ownerPools && e.id in input.activePools
            && Stakes(input.poolStake, e.id, e.weight)
  {
    hide Weight, Stakes;
    WeightMeaning(input.poolStake, e.id, e.weight);
    if e.source == SpoOwner && Stakes(input.poolStake, e.id, e.weight) {
      assert e == OwnerEntry(input.poolStake, (e.credential, e.id));
    }
  }

  lemma DrepMeaning(input: RoleInput, e: RoleEntry)
    ensures e in DrepSet(input) <==>
            e.source == DRep && e.credential == e.id && e.credential in input.liveDreps
            && Stakes(input.drepStake, e.id, e.weight)
  {
    hide Weight, Stakes;
    WeightMeaning(input.drepStake, e.id, e.weight);
    if e.source == DRep && e.credential == e.id && Stakes(input.drepStake, e.id, e.weight) {
      assert e == DrepEntry(input.drepStake, e.id);
    }
  }

  lemma CommitteeMeaning(cc: CommitteeRead, claimed: seq<Hash28>, e: RoleEntry)
    ensures e in CommitteeSet(cc, claimed) <==>
            e.source == Committee && e.credential == e.id && e.credential in claimed
            && SomeServes(cc, e.credential) && e.weight == 0
  {
    hide Badges, Serves;
    if e in CommitteeSet(cc, claimed) {
      var r :| r in cc.registrations && Badges(cc, r) && r.hot in claimed && e == CommitteeEntry(r.hot);
      ServesMeaning(cc, r);
    }
    if e.source == Committee && e.credential == e.id && e.credential in claimed && SomeServes(cc, e.credential)
       && e.weight == 0 {
      var r :| Serves(cc, r) && r.hot == e.credential;
      ServesMeaning(cc, r);
      assert e == CommitteeEntry(r.hot);
    }
  }

  /** The rows read support the entry. */
  ghost predicate Supported(c: Crypto, input: RoleInput, e: RoleEntry) {
    match e.source
    case SpoCalidus =>
      e.id in input.activePools && e.credential in input.claimedCalidus
      && Wins(c, input.registrations, e.id, e.credential) && Stakes(input.poolStake, e.id, e.weight)
    case SpoOwner =>
      (e.credential, e.id) in input.ownerPools && e.id in input.activePools
      && Stakes(input.poolStake, e.id, e.weight)
    case DRep =>
      e.credential == e.id && e.credential in input.liveDreps && Stakes(input.drepStake, e.id, e.weight)
    case Committee =>
      e.credential == e.id && e.credential in input.claimedCommittee && SomeServes(input.committee, e.credential)
      && e.weight == 0
  }

  /** The role set holds exactly the entries the rows support. */
  lemma RoleSetMeaning(c: Crypto, input: RoleInput, e: RoleEntry)
    ensures e in RoleSet(c, input) <==> Supported(c, input, e)
  {
    hide CalidusSet, OwnerSet, DrepSet, CommitteeSet, Stakes, Wins, SomeServes;
    CalidusMeaning(c, input, e);
    OwnerMeaning(input, e);
    DrepMeaning(input, e);
    CommitteeMeaning(input.committee, input.claimedCommittee, e);
  }

  /** The pools of the gate: the active ones with some parseable registration of a claimed key. */
  lemma ClaimedPoolsMeaning(c: Crypto, regs: seq<Bytes>, claimed: seq<Hash28>, active: seq<Hash28>, pool: Bytes)
    ensures pool in ClaimedPools(c, regs, claimed, active) <==>
            pool in active && exists b, r :: b in regs && ParseRegistration(c, b) == Ok(r)
                                             && r.poolId == pool && r.keyHash in claimed
  {
    hide ParseRegistration;
    if pool in ClaimedPools(c, regs, claimed, active) {
      var b :| b in regs && ParseRegistration(c, b).Ok? && ParseRegistration(c, b).value.keyHash in claimed
               && ParseRegistration(c, b).value.poolId == pool;
      assert ParseRegistration(c, b) == Ok(ParseRegistration(c, b).value);
    }
  }
}
