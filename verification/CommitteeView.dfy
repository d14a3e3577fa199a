/** The committee tables two db-sync instances hold of their own chains. Row ids and transaction ids are each
    instance's own; chains that agree up to the reference still give reads that differ in row order and in those
    integers only. */
module CommitteeView {
  import opened Prelude
  import opened Ordering
  import opened Roles
  import opened RoleLaws
  import opened CommitteeSql

  /** A certificate on the chain; `tx` is the transaction's place in it. */
  datatype ChainReg = ChainReg(cold: HashRow, hot: HashRow, tx: nat, cert: nat)

  datatype ChainDereg = ChainDereg(cold: HashRow, tx: nat, cert: nat)

  /** The chain one instance has synced: its transactions' slots, the certificates, and the committee enacted at the
      epoch of the reference. */
  datatype Chain = Chain(
    slots: seq<u64>,
    regs: set<ChainReg>,
    deregs: set<ChainDereg>,
    members: set<(HashRow, nat)>,
    epoch: nat)

  /** Slots follow the chain's order, and a transaction's certificate index identifies a registration. */
  ghost predicate ValidChain(ch: Chain) {
    (forall i, j :: 0 <= i < j < |ch.slots| ==> ch.slots[i] <= ch.slots[j])
    && (forall c :: c in ch.regs ==> c.tx < |ch.slots|)
    && (forall c :: c in ch.deregs ==> c.tx < |ch.slots|)
    && forall a, b :: a in ch.regs && b in ch.regs && a.tx == b.tx && a.cert == b.cert ==> a == b
  }

  /** Chains that may fork after the reference. */
  ghost predicate SameUpTo(ch: Chain, ch': Chain, reference: u64) {
    ch.members == ch'.members && ch.epoch == ch'.epoch && Within(ch, ch', reference) && Within(ch', ch, reference)
  }

  ghost predicate Within(ch: Chain, ch': Chain, reference: u64) {
    (forall i :: 0 <= i < |ch.slots| && ch.slots[i] <= reference ==> i < |ch'.slots| && ch'.slots[i] == ch.slots[i])
    && (forall c :: c in ch.regs && c.tx < |ch.slots| && ch.slots[c.tx] <= reference ==> c in ch'.regs)
    && forall c :: c in ch.deregs && c.tx < |ch.slots| && ch.slots[c.tx] <= reference ==> c in ch'.deregs
  }

  // ---------- one instance ----------

  /** The ids an instance gave its transactions: positive and increasing along the chain. */
  ghost predicate IsNumbering(ch: Chain, ids: seq<nat>) {
    |ids| == |ch.slots|
    && (forall i :: 0 <= i < |ids| ==> ids[i] > 0)
    && forall i, j :: 0 <= i < j < |ids| ==> ids[i] < ids[j]
  }

  /** `cc_txmax`: the largest id in the last transaction-bearing block at or under the reference, or 0. */
  ghost predicate IsCut(ch: Chain, ids: seq<nat>, reference: u64, maxTx: nat)
    requires |ids| == |ch.slots|
  {
    if forall i :: 0 <= i < |ch.slots| ==> ch.slots[i] > reference then maxTx == 0
    else exists last :: CutsAt(ch, ids, reference, maxTx, last)
  }

  ghost predicate CutsAt(ch: Chain, ids: seq<nat>, reference: u64, maxTx: nat, last: int)
    requires |ids| == |ch.slots|
  {
    0 <= last < |ids| && ids[last] == maxTx && ch.slots[last] <= reference
    && (forall i :: 0 <= i < |ids| && ch.slots[i] <= reference ==> ch.slots[i] <= ch.slots[last])
    && forall i :: 0 <= i < |ids| && ch.slots[i] == ch.slots[last] ==> ids[i] <= maxTx
  }

  /** The id cut is a cut at the reference slot. */
  lemma CutExact(ch: Chain, ids: seq<nat>, reference: u64, maxTx: nat, i: nat)
    requires ValidChain(ch) && IsNumbering(ch, ids) && IsCut(ch, ids, reference, maxTx) && i < |ids|
    ensures ids[i] <= maxTx <==> ch.slots[i] <= reference
  {
    if last :| CutsAt(ch, ids, reference, maxTx, last) {
      if ch.slots[i] <= reference && ch.slots[i] != ch.slots[last] {
        assert i < last;
      }
      if ch.slots[i] > reference {
        assert last < i;
      }
    }
  }

  ghost predicate RowOfReg(t: Tables, ids: seq<nat>, x: RegRow, c: ChainReg) {
    x.cold in t.hashes && t.hashes[x.cold] == c.cold && x.hot in t.hashes && t.hashes[x.hot] == c.hot
    && c.tx < |ids| && x.order == CertOrder(ids[c.tx], c.cert)
  }

  ghost predicate RowOfDereg(t: Tables, ids: seq<nat>, x: DeregRow, c: ChainDereg) {
    x.cold in t.hashes && t.hashes[x.cold] == c.cold && c.tx < |ids| && x.order == CertOrder(ids[c.tx], c.cert)
  }

  ghost predicate RowOfMember(t: Tables, x: MemberRow, m: (HashRow, nat)) {
    x.hid in t.hashes && t.hashes[x.hid] == m.0 && x.exp == m.1
  }

  ghost predicate OneRowEach(t: Tables) {
    forall h, k :: h in t.hashes && k in t.hashes && t.hashes[h] == t.hashes[k] ==> h == k
  }

  ghost predicate RegsOnChain(ch: Chain, ids: seq<nat>, t: Tables) {
    forall x :: x in t.regs ==> exists c :: c in ch.regs && RowOfReg(t, ids, x, c)
  }

  ghost predicate RegsStored(ch: Chain, ids: seq<nat>, t: Tables) {
    forall c :: c in ch.regs ==> exists x :: x in t.regs && RowOfReg(t, ids, x, c)
  }

  /** One row per certificate of this kind, and no others. */
  ghost predicate RegRows(ch: Chain, ids: seq<nat>, t: Tables) {
    RegsOnChain(ch, ids, t) && RegsStored(ch, ids, t)
  }

  ghost predicate DeregsOnChain(ch: Chain, ids: seq<nat>, t: Tables) {
    forall x :: x in t.deregs ==> exists c :: c in ch.deregs && RowOfDereg(t, ids, x, c)
  }

  ghost predicate DeregsStored(ch: Chain, ids: seq<nat>, t: Tables) {
    forall c :: c in ch.deregs ==> exists x :: x in t.deregs && RowOfDereg(t, ids, x, c)
  }

  /** One row per certificate of this kind, and no others. */
  ghost predicate DeregRows(ch: Chain, ids: seq<nat>, t: Tables) {
    DeregsOnChain(ch, ids, t) && DeregsStored(ch, ids, t)
  }

  ghost predicate SeatsOnChain(ch: Chain, t: Tables) {
    forall x :: x in t.members ==> exists m :: m in ch.members && RowOfMember(t, x, m)
  }

  ghost predicate SeatsStored(ch: Chain, t: Tables) {
    forall m :: m in ch.members ==> exists x :: x in t.members && RowOfMember(t, x, m)
  }

  ghost predicate MemberRows(ch: Chain, t: Tables) {
    SeatsOnChain(ch, t) && SeatsStored(ch, t)
  }

  /** The tables an instance holds of its chain; `committee_hash` keeps one row per credential. */
  ghost predicate TablesOf(ch: Chain, ids: seq<nat>, reference: u64, t: Tables) {
    ValidChain(ch) && IsNumbering(ch, ids) && IsCut(ch, ids, reference, t.maxTx) && t.epoch == ch.epoch
    && OneRowEach(t) && RegRows(ch, ids, t) && DeregRows(ch, ids, t) && MemberRows(ch, t)
  }

  lemma CertOfReg(ch: Chain, ids: seq<nat>, t: Tables, x: RegRow) returns (c: ChainReg)
    requires RegRows(ch, ids, t) && x in t.regs
    ensures c in ch.regs && RowOfReg(t, ids, x, c)
  {
    hide RegsStored, RowOfReg;
    c :| c in ch.regs && RowOfReg(t, ids, x, c);
  }

  lemma RowForReg(ch: Chain, ids: seq<nat>, t: Tables, c: ChainReg) returns (x: RegRow)
    requires RegRows(ch, ids, t) && c in ch.regs
    ensures x in t.regs && RowOfReg(t, ids, x, c)
  {
    hide RegsOnChain, RowOfReg;
    x :| x in t.regs && RowOfReg(t, ids, x, c);
  }

  lemma CertOfDereg(ch: Chain, ids: seq<nat>, t: Tables, x: DeregRow) returns (c: ChainDereg)
    requires DeregRows(ch, ids, t) && x in t.deregs
    ensures c in ch.deregs && RowOfDereg(t, ids, x, c)
  {
    hide DeregsStored, RowOfDereg;
    c :| c in ch.deregs && RowOfDereg(t, ids, x, c);
  }

  lemma RowForDereg(ch: Chain, ids: seq<nat>, t: Tables, c: ChainDereg) returns (x: DeregRow)
    requires DeregRows(ch, ids, t) && c in ch.deregs
    ensures x in t.deregs && RowOfDereg(t, ids, x, c)
  {
    hide DeregsOnChain, RowOfDereg;
    x :| x in t.deregs && RowOfDereg(t, ids, x, c);
  }

  lemma SeatOfRow(ch: Chain, t: Tables, x: MemberRow) returns (m: (HashRow, nat))
    requires MemberRows(ch, t) && x in t.members
    ensures m in ch.members && RowOfMember(t, x, m)
  {
    hide SeatsStored, RowOfMember;
    m :| m in ch.members && RowOfMember(t, x, m);
  }

  lemma RowForSeat(ch: Chain, t: Tables, m: (HashRow, nat)) returns (x: MemberRow)
    requires MemberRows(ch, t) && m in ch.members
    ensures x in t.members && RowOfMember(t, x, m)
  {
    hide SeatsOnChain, RowOfMember;
    x :| x in t.members && RowOfMember(t, x, m);
  }

  /** Distinct registrations have distinct orders, as the query's `DISTINCT ON` needs. */
  lemma OrdersIdentify(ch: Chain, ids: seq<nat>, reference: u64, t: Tables, a: RegRow, b: RegRow)
    requires TablesOf(ch, ids, reference, t) && a in t.regs && b in t.regs && a.order == b.order
    ensures a == b
  {
    hide RegRows, DeregRows, MemberRows, IsCut;
    var c := CertOfReg(ch, ids, t, a);
    var d := CertOfReg(ch, ids, t, b);
    assert c.tx == d.tx && c == d;
  }

  lemma TablesWellFormed(ch: Chain, ids: seq<nat>, reference: u64, t: Tables)
    requires TablesOf(ch, ids, reference, t)
    ensures WellFormed(t)
  {
    hide RegRows, DeregRows, MemberRows, IsCut, OneRowEach, ValidChain, IsNumbering;
    forall m | m in t.members
      ensures m.hid in t.hashes
    {
      var s := SeatOfRow(ch, t, m);
    }
    forall x | x in t.regs
      ensures x.cold in t.hashes && x.hot in t.hashes
    {
      var c := CertOfReg(ch, ids, t, x);
    }
    forall x | x in t.deregs
      ensures x.cold in t.hashes
    {
      var c := CertOfDereg(ch, ids, t, x);
    }
    forall a, b | a in t.regs && b in t.regs && a.order == b.order
      ensures a == b
    {
      OrdersIdentify(ch, ids, reference, t, a, b);
    }
  }

  // ---------- what the narrowed read holds, on the chain ----------

  ghost predicate SeatedOn(ch: Chain, cold: HashRow) {
    exists m :: m in ch.members && m.0 == cold
  }

  predicate EarlierOn(tx: nat, cert: nat, tx': nat, cert': nat) {
    tx < tx' || (tx == tx' && cert < cert')
  }

  ghost predicate RegBy(ch: Chain, reference: u64, c: ChainReg) {
    c in ch.regs && c.tx < |ch.slots| && ch.slots[c.tx] <= reference
  }

  ghost predicate DeregBy(ch: Chain, reference: u64, c: ChainDereg) {
    c in ch.deregs && c.tx < |ch.slots| && ch.slots[c.tx] <= reference
  }

  /** A seated credential's newest registration by the reference. */
  ghost predicate LastReg(ch: Chain, reference: u64, c: ChainReg) {
    RegBy(ch, reference, c) && SeatedOn(ch, c.cold)
    && forall d :: RegBy(ch, reference, d) && d.cold == c.cold ==> !EarlierOn(c.tx, c.cert, d.tx, d.cert)
  }

  ghost predicate LastDereg(ch: Chain, reference: u64, c: ChainDereg) {
    DeregBy(ch, reference, c) && SeatedOn(ch, c.cold)
    && forall d :: DeregBy(ch, reference, d) && d.cold == c.cold ==> !EarlierOn(c.tx, c.cert, d.tx, d.cert)
  }

  function Registration(ids: seq<nat>, c: ChainReg): CommitteeRegistration {
    CommitteeRegistration(c.cold.raw, c.hot.raw, c.hot.hasScript,
                          CertOrder(if c.tx < |ids| then ids[c.tx] else 0, c.cert))
  }

  function Deregistration(ids: seq<nat>, c: ChainDereg): CommitteeDeregistration {
    CommitteeDeregistration(c.cold.raw, CertOrder(if c.tx < |ids| then ids[c.tx] else 0, c.cert))
  }

  lemma IdsCompare(ch: Chain, ids: seq<nat>, tx: nat, cert: nat, tx': nat, cert': nat)
    requires IsNumbering(ch, ids) && tx < |ids| && tx' < |ids|
    ensures EarlierOn(tx, cert, tx', cert') <==> Older(CertOrder(ids[tx], cert), CertOrder(ids[tx'], cert'))
  {
    assert tx < tx' ==> ids[tx] < ids[tx'];
    assert tx' < tx ==> ids[tx'] < ids[tx];
  }

  lemma SeatedRowOn(ch: Chain, ids: seq<nat>, reference: u64, t: Tables, hid: nat)
    requires TablesOf(ch, ids, reference, t) && hid in t.hashes
    ensures SeatedRow(t, hid) <==> SeatedOn(ch, t.hashes[hid])
  {
    hide RegRows, DeregRows, MemberRows, IsCut, ValidChain, IsNumbering;
    if x :| x in t.members && x.hid == hid {
      var m := SeatOfRow(ch, t, x);
    }
    if m :| m in ch.members && m.0 == t.hashes[hid] {
      var x := RowForSeat(ch, t, m);
    }
  }

  /** A registration row survives the query exactly when its certificate is the credential's last. */
  lemma KeptRegIsLast(ch: Chain, ids: seq<nat>, reference: u64, t: Tables, x: RegRow, c: ChainReg)
    requires TablesOf(ch, ids, reference, t) && x in t.regs && c in ch.regs && RowOfReg(t, ids, x, c)
    ensures KeepsReg(t, NewestSeated, x) <==> LastReg(ch, reference, c)
  {
    hide RegRows, DeregRows, MemberRows, ValidChain, IsCut, SeatedOn, SeatedRow, Older, EarlierOn;
    SeatedRowOn(ch, ids, reference, t, x.cold);
    CutExact(ch, ids, reference, t.maxTx, c.tx);
    if KeepsReg(t, NewestSeated, x) {
      forall d | RegBy(ch, reference, d) && d.cold == c.cold
        ensures !EarlierOn(c.tx, c.cert, d.tx, d.cert)
      {
        var y := RowForReg(ch, ids, t, d);
        CutExact(ch, ids, reference, t.maxTx, d.tx);
        IdsCompare(ch, ids, c.tx, c.cert, d.tx, d.cert);
      }
    }
    if LastReg(ch, reference, c) {
      forall y | y in t.regs && y.order.tx <= t.maxTx && y.cold == x.cold
        ensures !Older(x.order, y.order)
      {
        var d := CertOfReg(ch, ids, t, y);
        CutExact(ch, ids, reference, t.maxTx, d.tx);
        IdsCompare(ch, ids, c.tx, c.cert, d.tx, d.cert);
      }
    }
  }

  lemma KeptDeregIsLast(ch: Chain, ids: seq<nat>, reference: u64, t: Tables, x: DeregRow, c: ChainDereg)
    requires TablesOf(ch, ids, reference, t) && x in t.deregs && c in ch.deregs && RowOfDereg(t, ids, x, c)
    ensures KeepsDereg(t, NewestSeated, x) <==> LastDereg(ch, reference, c)
  {
    hide RegRows, DeregRows, MemberRows, ValidChain, IsCut, SeatedOn, SeatedRow, Older, EarlierOn;
    SeatedRowOn(ch, ids, reference, t, x.cold);
    CutExact(ch, ids, reference, t.maxTx, c.tx);
    if KeepsDereg(t, NewestSeated, x) {
      forall d | DeregBy(ch, reference, d) && d.cold == c.cold
        ensures !EarlierOn(c.tx, c.cert, d.tx, d.cert)
      {
        var y := RowForDereg(ch, ids, t, d);
        CutExact(ch, ids, reference, t.maxTx, d.tx);
        IdsCompare(ch, ids, c.tx, c.cert, d.tx, d.cert);
      }
    }
    if LastDereg(ch, reference, c) {
      forall y | y in t.deregs && y.order.tx <= t.maxTx && y.cold == x.cold
        ensures !Older(x.order, y.order)
      {
        var d := CertOfDereg(ch, ids, t, y);
        CutExact(ch, ids, reference, t.maxTx, d.tx);
        IdsCompare(ch, ids, c.tx, c.cert, d.tx, d.cert);
      }
    }
  }

  /** What the query answers: nothing where nothing is claimed, otherwise the narrowed read. */
  ghost predicate Answers(ch: Chain, ids: seq<nat>, reference: u64, t: Tables, claimed: seq<Hash28>,
                          cc: CommitteeRead) {
    TablesOf(ch, ids, reference, t) && WellFormed(t)
    && if claimed == [] then cc == CommitteeRead(t.epoch, [], [], []) else Reads(t, NewestSeated, cc)
  }

  lemma AnsweredReg(ch: Chain, ids: seq<nat>, reference: u64, t: Tables, cc: CommitteeRead, r: CommitteeRegistration)
    requires TablesOf(ch, ids, reference, t) && WellFormed(t) && Reads(t, NewestSeated, cc)
    ensures r in cc.registrations <==> exists c :: LastReg(ch, reference, c) && r == Registration(ids, c)
  {
    hide RegRows, DeregRows, MemberRows, OneRowEach, IsCut, LastReg, KeepsReg, KeepsDereg, ValidChain;
    if r in cc.registrations {
      var x :| x in t.regs && KeepsReg(t, NewestSeated, x) && r == Reg(t, x);
      var c := CertOfReg(ch, ids, t, x);
      KeptRegIsLast(ch, ids, reference, t, x, c);
      assert LastReg(ch, reference, c) && r == Registration(ids, c);
    }
    if c :| LastReg(ch, reference, c) && r == Registration(ids, c) {
      assert c in ch.regs by {
        LastRegListed(ch, reference, c);
      }
      var x := RowForReg(ch, ids, t, c);
      KeptRegIsLast(ch, ids, reference, t, x, c);
      assert r == Reg(t, x);
    }
  }

  lemma LastRegListed(ch: Chain, reference: u64, c: ChainReg)
    requires LastReg(ch, reference, c)
    ensures c in ch.regs && c.tx < |ch.slots| && ch.slots[c.tx] <= reference
  {
  }

  lemma AnsweredDereg(ch: Chain, ids: seq<nat>, reference: u64, t: Tables, cc: CommitteeRead,
                      r: CommitteeDeregistration)
    requires TablesOf(ch, ids, reference, t) && WellFormed(t) && Reads(t, NewestSeated, cc)
    ensures r in cc.deregistrations <==> exists c :: LastDereg(ch, reference, c) && r == Deregistration(ids, c)
  {
    hide RegRows, DeregRows, MemberRows, OneRowEach, IsCut, LastDereg, KeepsReg, KeepsDereg, ValidChain;
    if r in cc.deregistrations {
      var x :| x in t.deregs && KeepsDereg(t, NewestSeated, x) && r == Dereg(t, x);
      var c := CertOfDereg(ch, ids, t, x);
      KeptDeregIsLast(ch, ids, reference, t, x, c);
      assert LastDereg(ch, reference, c) && r == Deregistration(ids, c);
    }
    if c :| LastDereg(ch, reference, c) && r == Deregistration(ids, c) {
      assert c in ch.deregs by {
        LastDeregListed(ch, reference, c);
      }
      var x := RowForDereg(ch, ids, t, c);
      KeptDeregIsLast(ch, ids, reference, t, x, c);
      assert r == Dereg(t, x);
    }
  }

  lemma LastDeregListed(ch: Chain, reference: u64, c: ChainDereg)
    requires LastDereg(ch, reference, c)
    ensures c in ch.deregs && c.tx < |ch.slots| && ch.slots[c.tx] <= reference
  {
  }

  lemma AnsweredMember(ch: Chain, ids: seq<nat>, reference: u64, t: Tables, cc: CommitteeRead, m: CommitteeMember)
    requires TablesOf(ch, ids, reference, t) && WellFormed(t) && Reads(t, NewestSeated, cc)
    ensures m in cc.members <==> exists x :: x in ch.members && m == CommitteeMember(x.0.raw, x.0.hasScript, x.1)
  {
    hide RegRows, DeregRows, MemberRows, OneRowEach, IsCut, KeepsReg, KeepsDereg, ValidChain, IsNumbering;
    if m in cc.members {
      var y :| y in t.members && m == Member(t, y);
      var x := SeatOfRow(ch, t, y);
    }
    if x :| x in ch.members && m == CommitteeMember(x.0.raw, x.0.hasScript, x.1) {
      var y := RowForSeat(ch, t, x);
      assert m == Member(t, y);
    }
  }

  // ---------- two instances ----------

  lemma LastRegAgrees(ch: Chain, ch': Chain, reference: u64, c: ChainReg)
    requires SameUpTo(ch, ch', reference) && LastReg(ch, reference, c)
    ensures LastReg(ch', reference, c)
  {
    hide EarlierOn;
  }

  lemma LastDeregAgrees(ch: Chain, ch': Chain, reference: u64, c: ChainDereg)
    requires SameUpTo(ch, ch', reference) && LastDereg(ch, reference, c)
    ensures LastDereg(ch', reference, c)
  {
    hide EarlierOn;
  }

  /** The transactions by the reference are a common prefix. */
  lemma CommonPrefix(ch: Chain, ch': Chain, reference: u64, n: nat)
    requires ValidChain(ch) && SameUpTo(ch, ch', reference)
    requires n <= |ch.slots| && forall i :: 0 <= i < n ==> ch.slots[i] <= reference
    ensures n <= |ch'.slots|
  {
    if n > 0 {
      assert ch.slots[n - 1] <= reference;
    }
  }

  ghost function CountBy(slots: seq<u64>, reference: u64): (n: nat)
    requires forall i, j :: 0 <= i < j < |slots| ==> slots[i] <= slots[j]
    ensures n <= |slots| && forall i :: 0 <= i < |slots| ==> (slots[i] <= reference <==> i < n)
  {
    if slots == [] || slots[|slots| - 1] <= reference then |slots| else CountBy(slots[..|slots| - 1], reference)
  }

  /** The map from one instance's ids to the other's. */
  ghost function Translation(ids: seq<nat>, ids': seq<nat>, n: nat): map<nat, nat>
    requires n <= |ids| && n <= |ids'|
    requires forall i, j :: 0 <= i < j < |ids| ==> ids[i] < ids[j]
  {
    map i | 0 <= i < n :: ids[i] := ids'[i]
  }

  lemma TranslationAt(ids: seq<nat>, ids': seq<nat>, n: nat, i: nat)
    requires n <= |ids| && n <= |ids'| && i < n
    requires forall i, j :: 0 <= i < j < |ids| ==> ids[i] < ids[j]
    ensures ids[i] in Translation(ids, ids', n) && Translation(ids, ids', n)[ids[i]] == ids'[i]
  {
  }

  lemma TranslationIncreasing(ids: seq<nat>, ids': seq<nat>, n: nat)
    requires n <= |ids| && n <= |ids'|
    requires forall i, j :: 0 <= i < j < |ids| ==> ids[i] < ids[j]
    requires forall i, j :: 0 <= i < j < |ids'| ==> ids'[i] < ids'[j]
    ensures Increasing(Translation(ids, ids', n))
  {
    hide Translation;
    var tr := Translation(ids, ids', n);
    forall x, y | x in tr && y in tr && x < y
      ensures tr[x] < tr[y]
    {
      var i := TranslationKey(ids, ids', n, x);
      var j := TranslationKey(ids, ids', n, y);
      assert i < j;
    }
  }

  lemma TranslationKey(ids: seq<nat>, ids': seq<nat>, n: nat, x: nat) returns (i: nat)
    requires n <= |ids| && n <= |ids'|
    requires forall i, j :: 0 <= i < j < |ids| ==> ids[i] < ids[j]
    requires x in Translation(ids, ids', n)
    ensures i < n && ids[i] == x && Translation(ids, ids', n)[x] == ids'[i]
  {
    i :| 0 <= i < n && ids[i] == x;
    TranslationAt(ids, ids', n, i);
  }

  lemma RegTranslates(ch: Chain, ids: seq<nat>, ids': seq<nat>, reference: u64, n: nat, c: ChainReg)
    requires IsNumbering(ch, ids) && n <= |ids| && n <= |ids'| && LastReg(ch, reference, c)
    requires forall i :: 0 <= i < |ch.slots| ==> (ch.slots[i] <= reference <==> i < n)
    ensures var tr, r := Translation(ids, ids', n), Registration(ids, c);
            r.order.tx in tr && RenumberReg(tr, r) == Registration(ids', c)
  {
    hide Translation;
    LastRegListed(ch, reference, c);
    hide LastReg;
    TranslationAt(ids, ids', n, c.tx);
  }

  lemma DeregTranslates(ch: Chain, ids: seq<nat>, ids': seq<nat>, reference: u64, n: nat, c: ChainDereg)
    requires IsNumbering(ch, ids) && n <= |ids| && n <= |ids'| && LastDereg(ch, reference, c)
    requires forall i :: 0 <= i < |ch.slots| ==> (ch.slots[i] <= reference <==> i < n)
    ensures var tr, d := Translation(ids, ids', n), Deregistration(ids, c);
            d.order.tx in tr && RenumberDereg(tr, d) == Deregistration(ids', c)
  {
    hide Translation;
    LastDeregListed(ch, reference, c);
    hide LastDereg;
    TranslationAt(ids, ids', n, c.tx);
  }

  /** The registrations of two instances' reads, certificate by certificate. */
  lemma RegsTranslate(ch: Chain, ch': Chain, ids: seq<nat>, ids': seq<nat>, reference: u64, t: Tables, t': Tables,
                      cc: CommitteeRead, cc': CommitteeRead, n: nat)
    requires SameUpTo(ch, ch', reference)
    requires TablesOf(ch, ids, reference, t) && WellFormed(t) && Reads(t, NewestSeated, cc)
    requires TablesOf(ch', ids', reference, t') && WellFormed(t') && Reads(t', NewestSeated, cc')
    requires n <= |ids| && n <= |ids'|
    requires forall i :: 0 <= i < |ch.slots| ==> (ch.slots[i] <= reference <==> i < n)
    ensures var tr := Translation(ids, ids', n);
            (forall r :: r in cc.registrations ==> r.order.tx in tr && RenumberReg(tr, r) in cc'.registrations)
            && forall r :: r in cc'.registrations ==> exists x :: x in cc.registrations && RenumberReg(tr, x) == r
  {
    hide SameUpTo, LastReg, Translation, Reads, WellFormed, Registration, RenumberReg;
    hide RegRows, DeregRows, MemberRows, IsCut;
    var tr := Translation(ids, ids', n);
    forall r | r in cc.registrations
      ensures r.order.tx in tr && RenumberReg(tr, r) in cc'.registrations
    {
      AnsweredReg(ch, ids, reference, t, cc, r);
      var c :| LastReg(ch, reference, c) && r == Registration(ids, c);
      RegTranslates(ch, ids, ids', reference, n, c);
      LastRegAgrees(ch, ch', reference, c);
      AnsweredReg(ch', ids', reference, t', cc', Registration(ids', c));
    }
    forall r | r in cc'.registrations
      ensures exists x :: x in cc.registrations && RenumberReg(tr, x) == r
    {
      AnsweredReg(ch', ids', reference, t', cc', r);
      var c :| LastReg(ch', reference, c) && r == Registration(ids', c);
      SameUpToSymmetric(ch, ch', reference);
      LastRegAgrees(ch', ch, reference, c);
      RegTranslates(ch, ids, ids', reference, n, c);
      AnsweredReg(ch, ids, reference, t, cc, Registration(ids, c));
    }
  }

  lemma SameUpToSymmetric(ch: Chain, ch': Chain, reference: u64)
    requires SameUpTo(ch, ch', reference)
    ensures SameUpTo(ch', ch, reference)
  {
  }

  lemma DeregsTranslate(ch: Chain, ch': Chain, ids: seq<nat>, ids': seq<nat>, reference: u64, t: Tables, t': Tables,
                        cc: CommitteeRead, cc': CommitteeRead, n: nat)
    requires SameUpTo(ch, ch', reference)
    requires TablesOf(ch, ids, reference, t) && WellFormed(t) && Reads(t, NewestSeated, cc)
    requires TablesOf(ch', ids', reference, t') && WellFormed(t') && Reads(t', NewestSeated, cc')
    requires n <= |ids| && n <= |ids'|
    requires forall i :: 0 <= i < |ch.slots| ==> (ch.slots[i] <= reference <==> i < n)
    ensures var tr := Translation(ids, ids', n);
            (forall d :: d in cc.deregistrations ==> d.order.tx in tr && RenumberDereg(tr, d) in cc'.deregistrations)
            && forall d :: d in cc'.deregistrations ==> exists x :: x in cc.deregistrations && RenumberDereg(tr, x) == d
  {
    hide SameUpTo, LastDereg, Translation, Reads, WellFormed, Deregistration, RenumberDereg;
    hide RegRows, DeregRows, MemberRows, IsCut;
    var tr := Translation(ids, ids', n);
    forall d | d in cc.deregistrations
      ensures d.order.tx in tr && RenumberDereg(tr, d) in cc'.deregistrations
    {
      AnsweredDereg(ch, ids, reference, t, cc, d);
      var c :| LastDereg(ch, reference, c) && d == Deregistration(ids, c);
      DeregTranslates(ch, ids, ids', reference, n, c);
      LastDeregAgrees(ch, ch', reference, c);
      AnsweredDereg(ch', ids', reference, t', cc', Deregistration(ids', c));
    }
    forall d | d in cc'.deregistrations
      ensures exists x :: x in cc.deregistrations && RenumberDereg(tr, x) == d
    {
      AnsweredDereg(ch', ids', reference, t', cc', d);
      var c :| LastDereg(ch', reference, c) && d == Deregistration(ids', c);
      SameUpToSymmetric(ch, ch', reference);
      LastDeregAgrees(ch', ch, reference, c);
      DeregTranslates(ch, ids, ids', reference, n, c);
      AnsweredDereg(ch, ids, reference, t, cc, Deregistration(ids, c));
    }
  }

  lemma MembersAgree(ch: Chain, ch': Chain, ids: seq<nat>, ids': seq<nat>, reference: u64, t: Tables, t': Tables,
                     cc: CommitteeRead, cc': CommitteeRead, m: CommitteeMember)
    requires SameUpTo(ch, ch', reference)
    requires TablesOf(ch, ids, reference, t) && WellFormed(t) && Reads(t, NewestSeated, cc)
    requires TablesOf(ch', ids', reference, t') && WellFormed(t') && Reads(t', NewestSeated, cc')
    ensures m in cc.members <==> m in cc'.members
  {
    hide TablesOf, WellFormed, Reads;
    AnsweredMember(ch, ids, reference, t, cc, m);
    AnsweredMember(ch', ids', reference, t', cc', m);
  }

  /** Two instances' answers hold the same seats and certificates, up to row order and transaction ids. */
  lemma AnswersAgree(ch: Chain, ch': Chain, ids: seq<nat>, ids': seq<nat>, reference: u64, t: Tables, t': Tables,
                     claimed: seq<Hash28>, cc: CommitteeRead, cc': CommitteeRead)
    requires SameUpTo(ch, ch', reference)
    requires Answers(ch, ids, reference, t, claimed, cc) && Answers(ch', ids', reference, t', claimed, cc')
    ensures SameCommittee(cc, cc')
  {
    if claimed == [] {
      assert Renumbers(map[], cc, cc');
    } else {
      NarrowedAgree(ch, ch', ids, ids', reference, t, t', cc, cc');
    }
  }

  lemma EpochRead(t: Tables, cc: CommitteeRead)
    requires WellFormed(t) && Reads(t, NewestSeated, cc)
    ensures cc.epoch == t.epoch
  {
  }

  lemma NarrowedAgree(ch: Chain, ch': Chain, ids: seq<nat>, ids': seq<nat>, reference: u64, t: Tables, t': Tables,
                      cc: CommitteeRead, cc': CommitteeRead)
    requires SameUpTo(ch, ch', reference)
    requires TablesOf(ch, ids, reference, t) && WellFormed(t) && Reads(t, NewestSeated, cc)
    requires TablesOf(ch', ids', reference, t') && WellFormed(t') && Reads(t', NewestSeated, cc')
    ensures SameCommittee(cc, cc')
  {
    hide WellFormed, Reads, RegRows, DeregRows, MemberRows, IsCut, OneRowEach;
    hide Translation, Increasing, RenumberReg, RenumberDereg;
    EpochRead(t, cc);
    EpochRead(t', cc');
    var n := CountBy(ch.slots, reference);
    CommonPrefix(ch, ch', reference, n);
    hide SameUpTo;
    TranslationIncreasing(ids, ids', n);
    RegsTranslate(ch, ch', ids, ids', reference, t, t', cc, cc', n);
    DeregsTranslate(ch, ch', ids, ids', reference, t, t', cc, cc', n);
    forall m
      ensures m in cc.members <==> m in cc'.members
    {
      MembersAgree(ch, ch', ids, ids', reference, t, t', cc, cc', m);
    }
    assert Renumbers(Translation(ids, ids', n), cc, cc');
  }
}
