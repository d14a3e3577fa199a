/** The founding committee's membership rules: the 3/5 threshold, the guards that keep a committee from bricking
    itself, and which local keys a driver may vote with. */
module Governance {
  import opened Prelude

  type Account = Bytes

  /** `FollowerMaxMembers`. */
  const MAX_MEMBERS := 7

  function Seats(members: seq<Account>): set<Account> {
    set a | a in members
  }

  predicate Distinct(members: seq<Account>) {
    forall i, j :: 0 <= i < j < |members| ==> members[i] != members[j]
  }

  /** The shape every guard defends. */
  predicate Healthy(members: seq<Account>) {
    members != [] && Distinct(members) && |members| != 2
  }

  // ---------- the threshold ----------

  /** `threshold_for`, with its 64-bit product and 32-bit cast. */
  function ThresholdFor(n: nat): nat {
    var product := 3 * n % U64_LIMIT;
    (product / 5 + if product % 5 > 0 then 1 else 0) % U32_LIMIT
  }

  predicate Carries(ayes: nat, n: nat) {
    5 * ayes >= 3 * n
  }

  /** The exact range on which the threshold is the least number of ayes the 3/5 origin accepts. */
  lemma ThresholdIsLeast(n: nat)
    ensures Carries(ThresholdFor(n), n) && (forall t :: 0 <= t < ThresholdFor(n) ==> !Carries(t, n)) <==>
            3 * n <= 5 * (U32_LIMIT - 1)
  {
    if 3 * n < U64_LIMIT {
      var q, r := 3 * n / 5, 3 * n % 5;
      assert 3 * n == 5 * q + r;
    }
  }

  /** Past that range the cast wraps: a committee of 7158278827 would need a single aye. */
  lemma ThresholdWraps()
    ensures ThresholdFor(7_158_278_827) == 1 && !Carries(1, 7_158_278_827)
  {
  }

  /** A committee reaches its own threshold, and survives one lost seat exactly when it has three or more. */
  lemma ThresholdReachable(n: nat)
    requires 1 <= n && 3 * n <= 5 * (U32_LIMIT - 1)
    ensures 1 <= ThresholdFor(n) <= n
    ensures ThresholdFor(n) <= n - 1 <==> n >= 3
  {
    hide ThresholdFor;
    ThresholdIsLeast(n);
    assert Carries(n, n) && !Carries(0, n) && (Carries(n - 1, n) <==> n >= 3);
  }

  lemma {:induction false} SubsetSize<T>(a: set<T>, b: set<T>)
    requires a <= b
    ensures |a| <= |b|
  {
    assert b == a + (b - a);
  }

  /** Any two quorums share a member: at least a fifth of the committee. */
  lemma QuorumsMeet(seats: set<Account>, a: set<Account>, b: set<Account>)
    requires seats != {} && a <= seats && b <= seats
    requires Carries(|a|, |seats|) && Carries(|b|, |seats|)
    ensures 5 * |a * b| >= |seats| && a * b != {}
  {
    SubsetSize(a + b, seats);
    assert |a + b| + |a * b| == |a| + |b|;
  }

  // ---------- duplicates ----------

  lemma {:induction false} SeatsBound(members: seq<Account>)
    ensures |Seats(members)| <= |members|
    ensures |Seats(members)| == |members| <==> Distinct(members)
  {
    if members != [] {
      var n := |members| - 1;
      var front, last := members[..n], members[n];
      SeatsBound(front);
      assert members == front + [last];
      assert Seats(members) == Seats(front) + {last};
      assert Distinct(members) <==> Distinct(front) && last !in front;
    }
  }

  /** Can distinct members, each voting once, carry a motion whose denominator is the member list's length? */
  ghost predicate Passable(members: seq<Account>, lost: set<Account>) {
    exists ayes :: ayes <= Seats(members) - lost && Carries(|ayes|, |members|)
  }

  /** Exactly when the distinct seats left are enough; a repeated seat counts only in the denominator. */
  lemma PassableIff(members: seq<Account>, lost: set<Account>)
    ensures Passable(members, lost) <==> Carries(|Seats(members) - lost|, |members|)
  {
    if ayes :| ayes <= Seats(members) - lost && Carries(|ayes|, |members|) {
      SubsetSize(ayes, Seats(members) - lost);
    }
  }

  /** One real key listed three times can never pass anything again. */
  lemma RepeatedSeatBricks(a: Account)
    ensures !Passable([a, a, a], {})
  {
    PassableIff([a, a, a], {});
    assert Seats([a, a, a]) - {} == {a};
  }

  /** A healthy committee can act with everyone present; with one seat lost, exactly when it has three or more. */
  lemma HealthyActs(members: seq<Account>, lost: Account)
    requires Healthy(members) && lost in members
    ensures Passable(members, {})
    ensures Passable(members, {lost}) <==> |members| >= 3
  {
    hide Passable;
    SeatsBound(members);
    PassableIff(members, {});
    PassableIff(members, {lost});
    assert Seats(members) - {} == Seats(members);
    assert |Seats(members) - {lost}| == |members| - 1;
  }

  // ---------- the membership command ----------

  datatype Action = Add(target: Account) | Remove(target: Account) | Replace(list: seq<Account>)

  datatype MembersError = NoCommittee | AlreadyMember | NotMember | LastMember | EmptyList | Duplicate | TwoSeats

  function Retain(members: seq<Account>, target: Account): (r: seq<Account>)
    ensures forall a :: a in r <==> a in members && a != target
    ensures |r| <= |members| && (|r| < |members| <==> target in members)
  {
    if members == [] then [] else
    var n := |members| - 1;
    assert members == members[..n] + [members[n]];
    Retain(members[..n], target) + if members[n] != target then [members[n]] else []
  }

  function Proposed(current: seq<Account>, action: Action): seq<Account> {
    match action
    case Add(t) => current + [t]
    case Remove(t) => Retain(current, t)
    case Replace(list) => list
  }

  predicate Acceptable(current: seq<Account>, action: Action) {
    current != [] && Healthy(Proposed(current, action))
    && (action.Remove? ==> action.target in current)
  }

  /** `cmd_members`, up to the motion it drives: exactly the healthy outcomes pass. */
  method CmdMembers(current: seq<Account>, action: Action) returns (res: Result<seq<Account>, MembersError>)
    ensures res.Ok? <==> Acceptable(current, action)
    ensures res.Ok? ==> res.value == Proposed(current, action) && Healthy(res.value)
    ensures res.Err? ==> match res.error
                         case NoCommittee => current == []
                         case AlreadyMember => action.Add? && action.target in current
                         case NotMember => action.Remove? && action.target !in current
                         case LastMember => action.Remove? && forall a :: a in current ==> a == action.target
                         case EmptyList => action == Replace([])
                         case Duplicate => !Distinct(Proposed(current, action))
                         case TwoSeats => Distinct(Proposed(current, action)) && |Proposed(current, action)| == 2
  {
    hide Distinct;
    if current == [] {
      return Err(NoCommittee);
    }
    var members := current;
    match action {
      case Add(t) =>
        if t in members {
          RepeatedTail(current, t);
          return Err(AlreadyMember);
        }
        members := members + [t];
      case Remove(t) =>
        members := Retain(members, t);
        if |members| == |current| {
          return Err(NotMember);
        }
        if members == [] {
          return Err(LastMember);
        }
      case Replace(list) =>
        members := list;
        if members == [] {
          return Err(EmptyList);
        }
    }
    var distinct := RejectRepeated(members);
    if !distinct {
      return Err(Duplicate);
    }
    if |members| == 2 {
      return Err(TwoSeats);
    }
    res := Ok(members);
  }

  lemma RepeatedTail(members: seq<Account>, t: Account)
    requires t in members
    ensures !Distinct(members + [t])
  {
    var i :| 0 <= i < |members| && members[i] == t;
    var all := members + [t];
    assert all[i] == all[|members|];
  }

  /** The `seen` loop both the command and the genesis builder run. */
  method RejectRepeated(members: seq<Account>) returns (distinct: bool)
    ensures distinct <==> Distinct(members)
  {
    var seen: set<Account> := {};
    for i := 0 to |members|
      invariant seen == Seats(members[..i])
      invariant Distinct(members[..i])
    {
      if members[i] in seen {
        return false;
      }
      assert members[..i + 1] == members[..i] + [members[i]];
      seen := seen + {members[i]};
    }
    assert members[..|members|] == members;
    distinct := true;
  }

  lemma {:induction false} RetainDistinct(members: seq<Account>, t: Account)
    requires Distinct(members)
    ensures Distinct(Retain(members, t))
    ensures t in members ==> |Retain(members, t)| == |members| - 1
  {
    if members != [] {
      var n := |members| - 1;
      RetainDistinct(members[..n], t);
      assert members == members[..n] + [members[n]];
      assert members[n] !in members[..n];
    }
  }

  /** From a healthy committee: adding needs a stranger and never a sole founder; removing needs a member of a
      committee of neither one nor three; replacing reaches every healthy committee. */
  lemma AcceptableFromHealthy(current: seq<Account>, action: Action)
    requires Healthy(current)
    ensures action.Add? ==> (Acceptable(current, action) <==> action.target !in current && |current| != 1)
    ensures action.Remove? ==> (Acceptable(current, action) <==>
              action.target in current && |current| != 1 && |current| != 3)
    ensures action.Replace? ==> (Acceptable(current, action) <==> Healthy(action.list))
  {
    if action.Add? && action.target in current {
      RepeatedTail(current, action.target);
    }
    if action.Remove? {
      RetainDistinct(current, action.target);
    }
  }

  /** Removing the member just added gives the old committee back. */
  lemma RemoveUndoesAdd(current: seq<Account>, t: Account)
    requires t !in current
    ensures Proposed(Proposed(current, Add(t)), Remove(t)) == current
  {
    var all := current + [t];
    assert all[..|all| - 1] == current;
    RetainAbsent(current, t);
  }

  lemma {:induction false} RetainAbsent(members: seq<Account>, t: Account)
    requires t !in members
    ensures Retain(members, t) == members
  {
    if members != [] {
      var n := |members| - 1;
      assert members == members[..n] + [members[n]];
      RetainAbsent(members[..n], t);
    }
  }

  // ---------- the runtime and genesis guards ----------

  function Deduped(members: seq<Account>): nat {
    |Seats(members)|
  }

  /** The `set_members` arm of `CognoCallFilter`. */
  predicate CallFilter(current: seq<Account>, allowances: set<Account>, proposed: seq<Account>) {
    Deduped(proposed) == |proposed|
    && proposed != []
    && |proposed| <= MAX_MEMBERS
    && |proposed| != 2
    && forall m :: m in proposed ==> m in current || m in allowances
  }

  lemma FilterMeaning(current: seq<Account>, allowances: set<Account>, proposed: seq<Account>)
    ensures CallFilter(current, allowances, proposed)
       <==> Healthy(proposed) && |proposed| <= 7 && Seats(proposed) <= Seats(current) + allowances
  {
    SeatsBound(proposed);
    assert forall m :: m in proposed <==> m in Seats(proposed);
    assert forall m :: m in current <==> m in Seats(current);
  }

  /** The genesis builder's repeated-account and two-seat checks, the preset's size assertion, and the pallet's own
      limit on its genesis members. */
  method GenesisGuard(committee: seq<Account>) returns (ok: bool)
    ensures ok <==> Healthy(committee) && |committee| <= 7
  {
    var distinct := RejectRepeated(committee);
    if !distinct || |committee| == 2 {
      return false;
    }
    if |committee| != 1 && |committee| < 3 {
      return false;
    }
    ok := |committee| <= MAX_MEMBERS;
  }

  // ---------- every reachable committee ----------

  lemma DistinctPermuted(a: seq<Account>, b: seq<Account>)
    requires multiset(a) == multiset(b) && Distinct(a)
    ensures Distinct(b) && |a| == |b| && Seats(a) == Seats(b)
  {
    hide Distinct;
    SameMultiset(a, b);
    assert Seats(a) == Seats(b);
    SeatsBound(a);
    SeatsBound(b);
  }

  /** One change of the stored members, which the pallet sorts: a command's outcome, or any motion the filter lets
      through. */
  ghost predicate Step(allowances: set<Account>, current: seq<Account>, next: seq<Account>) {
    exists proposed :: Offered(allowances, current, proposed) && multiset(next) == multiset(proposed)
  }

  ghost predicate Offered(allowances: set<Account>, current: seq<Account>, proposed: seq<Account>) {
    CallFilter(current, allowances, proposed)
    || exists action :: Acceptable(current, action) && proposed == Proposed(current, action)
  }

  /** The stored members over time, from a guarded genesis; `allowances[i]` holds while `committees[i]` sits. */
  ghost predicate Trace(allowances: seq<set<Account>>, committees: seq<seq<Account>>) {
    |allowances| == |committees| && committees != []
    && Healthy(committees[0]) && |committees[0]| <= MAX_MEMBERS
    && forall i :: 0 <= i < |committees| - 1 ==> Step(allowances[i], committees[i], committees[i + 1])
  }

  lemma StepKeepsHealthy(allowances: set<Account>, current: seq<Account>, next: seq<Account>)
    requires Step(allowances, current, next)
    ensures Healthy(next)
  {
    hide Distinct, CallFilter, Proposed;
    var proposed :| Offered(allowances, current, proposed) && multiset(next) == multiset(proposed);
    FilterMeaning(current, allowances, proposed);
    DistinctPermuted(proposed, next);
  }

  // ---------- recovering a lost seat ----------

  /** Whom a motion may seat once a key is lost. */
  function Electable(current: seq<Account>, allowances: set<Account>, lost: Account): set<Account> {
    Seats(current) + allowances - {lost}
  }

  /** A motion the runtime admits that drops the lost seat. */
  predicate Recovers(current: seq<Account>, allowances: set<Account>, lost: Account, proposed: seq<Account>) {
    CallFilter(current, allowances, proposed) && lost !in proposed
  }

  /** Exactly the healthy lists of at most seven electable accounts. */
  lemma RecoversExact(current: seq<Account>, allowances: set<Account>, lost: Account, proposed: seq<Account>)
    ensures Recovers(current, allowances, lost, proposed)
       <==> Healthy(proposed) && |proposed| <= 7 && Seats(proposed) <= Electable(current, allowances, lost)
  {
    hide CallFilter, Healthy;
    FilterMeaning(current, allowances, proposed);
    assert lost in proposed <==> lost in Seats(proposed);
  }

  /** Dropping the lost seat and nothing else is admitted from four seats up to eight; from three it would leave two. */
  lemma DropExact(current: seq<Account>, allowances: set<Account>, lost: Account)
    requires Healthy(current) && lost in current
    ensures Recovers(current, allowances, lost, Retain(current, lost)) <==> 4 <= |current| <= 8
  {
    hide CallFilter, Recovers;
    RetainDistinct(current, lost);
    RecoversExact(current, allowances, lost, Retain(current, lost));
    hide Distinct;
    assert Seats(Retain(current, lost)) <= Electable(current, allowances, lost);
  }

  /** Replacing the lost seat by a newcomer is admitted exactly when the newcomer is funded and the size allowed. */
  lemma SwapExact(current: seq<Account>, allowances: set<Account>, lost: Account, newcomer: Account)
    requires Healthy(current) && lost in current && newcomer !in current
    ensures Recovers(current, allowances, lost, Retain(current, lost) + [newcomer])
       <==> newcomer in allowances && |current| <= 7
  {
    hide CallFilter, Recovers;
    var proposed := Retain(current, lost) + [newcomer];
    RetainDistinct(current, lost);
    assert Healthy(proposed);
    RecoversExact(current, allowances, lost, proposed);
    hide Distinct;
    assert Seats(proposed) == Seats(Retain(current, lost)) + {newcomer};
    assert Seats(Retain(current, lost)) <= Electable(current, allowances, lost);
  }

  /** A fault-tolerant successor exists exactly when three electable accounts remain. */
  lemma TolerantRecovery(current: seq<Account>, allowances: set<Account>, lost: Account)
    ensures (exists proposed :: Recovers(current, allowances, lost, proposed) && |proposed| >= 3)
       <==> |Electable(current, allowances, lost)| >= 3
  {
    hide Recovers, Electable;
    var able := Electable(current, allowances, lost);
    if proposed :| Recovers(current, allowances, lost, proposed) && |proposed| >= 3 {
      RecoversExact(current, allowances, lost, proposed);
      SeatsBound(proposed);
      SubsetSize(Seats(proposed), able);
    }
    if |able| >= 3 {
      var a :| a in able;
      assert |able - {a}| == |able| - 1;
      var b :| b in able - {a};
      assert |able - {a} - {b}| == |able| - 2;
      var c :| c in able - {a} - {b};
      assert Seats([a, b, c]) <= able;
      assert Healthy([a, b, c]);
      RecoversExact(current, allowances, lost, [a, b, c]);
    }
  }

  lemma SoleSuccessor(current: seq<Account>, allowances: set<Account>, lost: Account) returns (heir: Account)
    requires Distinct(current) && lost in current && |current| >= 3
    ensures Recovers(current, allowances, lost, [heir])
  {
    heir := if current[0] != lost then current[0] else current[1];
    assert current[0] != current[1];
    assert Seats([heir]) <= Electable(current, allowances, lost);
    RecoversExact(current, allowances, lost, [heir]);
  }

  lemma TraceExtends(allowances: seq<set<Account>>, committees: seq<seq<Account>>, k: nat, proposed: seq<Account>)
    requires Trace(allowances, committees) && k < |committees| && CallFilter(committees[k], allowances[k], proposed)
    ensures Trace(allowances[..k + 1] + [allowances[k]], committees[..k + 1] + [proposed])
  {
    hide Healthy, CallFilter;
    var funded, cs := allowances[..k + 1] + [allowances[k]], committees[..k + 1] + [proposed];
    forall i | 0 <= i < |cs| - 1
      ensures Step(funded[i], cs[i], cs[i + 1])
    {
      assert funded[i] == allowances[i] && cs[i] == committees[i];
      if i == k {
        assert Offered(funded[i], cs[i], proposed) && multiset(cs[i + 1]) == multiset(proposed);
      } else {
        assert cs[i + 1] == committees[i + 1];
      }
    }
  }

  /** Governance never bricks: whatever happened since a guarded genesis, the committee is healthy and can pass a
      motion. With three seats or more, any one of them lost, the rest can still carry a motion, the runtime admits
      one that drops the lost seat, and the run goes on from there; a fault-tolerant successor is among those motions
      exactly when three electable accounts remain. */
  lemma NeverBricks(allowances: seq<set<Account>>, committees: seq<seq<Account>>, k: nat, lost: Account)
    requires Trace(allowances, committees) && k < |committees| && lost in committees[k]
    ensures Healthy(committees[k]) && Passable(committees[k], {})
    ensures Passable(committees[k], {lost}) <==> |committees[k]| >= 3
    ensures |committees[k]| >= 3 ==>
              exists proposed ::
                Recovers(committees[k], allowances[k], lost, proposed)
                && Trace(allowances[..k + 1] + [allowances[k]], committees[..k + 1] + [proposed])
    ensures (exists proposed :: Recovers(committees[k], allowances[k], lost, proposed) && |proposed| >= 3)
       <==> |Electable(committees[k], allowances[k], lost)| >= 3
  {
    if k > 0 {
      hide Step, Passable, Healthy, Recovers, Electable;
      StepKeepsHealthy(allowances[k - 1], committees[k - 1], committees[k]);
    }
    hide Trace, Step, Passable, CallFilter, Electable, Distinct;
    HealthyActs(committees[k], lost);
    TolerantRecovery(committees[k], allowances[k], lost);
    if |committees[k]| >= 3 {
      var heir := SoleSuccessor(committees[k], allowances[k], lost);
      TraceExtends(allowances, committees, k, [heir]);
    }
  }

  // ---------- resolving who may vote ----------

  datatype ResolveError = Unseated | ThresholdZero | ThresholdTooLow | TooFewKeys

  datatype Resolved = Resolved(threshold: nat, count: nat, eligible: seq<nat>)

  /** `resolve_motion_threshold`: the minimum, or an override that is at least one and at least the minimum. */
  function MotionThreshold(explicit: Option<nat>, min: nat): (r: Result<nat, ResolveError>)
    ensures r.Ok? <==> explicit.None? || (explicit.value >= 1 && explicit.value >= min)
    ensures r.Ok? ==> r.value >= min && (explicit.Some? ==> r.value == explicit.value)
    ensures explicit.None? ==> r == Ok(min)
  {
    if explicit.None? then Ok(min)
    else if explicit.value < 1 then Err(ThresholdZero)
    else if explicit.value < min then Err(ThresholdTooLow)
    else Ok(explicit.value)
  }

  /** The on-chain members whose keys are held locally. */
  function Held(onchain: seq<Account>, locals: seq<Account>): set<Account> {
    set a | a in locals && a in onchain
  }

  /** The first local index of each member held. */
  ghost predicate IsEligible(onchain: seq<Account>, locals: seq<Account>, eligible: seq<nat>) {
    (forall i :: 0 <= i < |eligible| ==> eligible[i] < |locals| && locals[eligible[i]] in onchain)
    && (forall i, j :: 0 <= i < j < |eligible| ==> eligible[i] < eligible[j])
    && (forall i, k :: 0 <= i < |eligible| && 0 <= k < eligible[i] ==> locals[k] != locals[eligible[i]])
    && Chosen(locals, eligible) == Held(onchain, locals)
  }

  ghost function Chosen(locals: seq<Account>, indices: seq<nat>): set<Account>
    requires forall i :: 0 <= i < |indices| ==> indices[i] < |locals|
  {
    set i | 0 <= i < |indices| :: locals[indices[i]]
  }

  lemma {:induction false} ChosenDistinct(onchain: seq<Account>, locals: seq<Account>, eligible: seq<nat>, t: nat)
    requires IsEligible(onchain, locals, eligible) && t <= |eligible|
    ensures |Chosen(locals, eligible[..t])| == t
    ensures Chosen(locals, eligible[..t]) <= Seats(onchain)
  {
    if t > 0 {
      ChosenDistinct(onchain, locals, eligible, t - 1);
      assert eligible[..t] == eligible[..t - 1] + [eligible[t - 1]];
      ChosenSnoc(locals, eligible[..t - 1], eligible[t - 1]);
      assert forall k :: 0 <= k < t - 1 ==>
             eligible[k] < eligible[t - 1] && locals[eligible[k]] != locals[eligible[t - 1]];
    }
  }

  lemma EligibleSnoc(onchain: seq<Account>, locals: seq<Account>, i: nat, eligible: seq<nat>)
    requires i < |locals| && IsEligible(onchain, locals[..i], eligible)
    ensures var take := locals[i] in onchain && locals[i] !in Held(onchain, locals[..i]);
            IsEligible(onchain, locals[..i + 1], if take then eligible + [i] else eligible)
  {
    var before, after := locals[..i], locals[..i + 1];
    assert after == before + [locals[i]];
    HeldSnoc(onchain, locals, i);
    assert Chosen(after, eligible) == Chosen(before, eligible);
    if locals[i] in onchain && locals[i] !in Held(onchain, before) {
      assert locals[i] !in before;
      ChosenSnoc(after, eligible, i);
    }
  }

  lemma HeldSnoc(onchain: seq<Account>, locals: seq<Account>, i: nat)
    requires i < |locals|
    ensures Held(onchain, locals[..i + 1]) ==
            Held(onchain, locals[..i]) + if locals[i] in onchain then {locals[i]} else {}
  {
    assert locals[..i + 1] == locals[..i] + [locals[i]];
  }

  lemma ChosenSnoc(locals: seq<Account>, indices: seq<nat>, i: nat)
    requires i < |locals| && forall k :: 0 <= k < |indices| ==> indices[k] < |locals|
    ensures Chosen(locals, indices + [i]) == Chosen(locals, indices) + {locals[i]}
  {
    var all := indices + [i];
    assert all[|indices|] == i;
    assert forall k :: 0 <= k < |indices| ==> all[k] == indices[k];
  }

  /** `resolve_committee`: it succeeds exactly when the members held can reach the threshold. */
  method ResolveCommittee(onchain: seq<Account>, locals: seq<Account>, explicit: Option<nat>)
    returns (res: Result<Resolved, ResolveError>)
    ensures res.Ok? <==> onchain != [] && MotionThreshold(explicit, ThresholdFor(|onchain|)).Ok?
                         && |Held(onchain, locals)| >= MotionThreshold(explicit, ThresholdFor(|onchain|)).value
    ensures res.Ok? ==> res.value.threshold >= ThresholdFor(|onchain|) && res.value.count == |onchain|
                        && (explicit.Some? ==> res.value.threshold == explicit.value)
                        && (explicit.None? ==> res.value.threshold == ThresholdFor(|onchain|))
                        && IsEligible(onchain, locals, res.value.eligible)
                        && res.value.threshold <= |res.value.eligible|
    ensures res.Err? ==> match res.error
                         case Unseated => onchain == []
                         case ThresholdZero => explicit == Some(0)
                         case ThresholdTooLow => explicit.Some? && explicit.value < ThresholdFor(|onchain|)
                         case TooFewKeys => onchain != [] && MotionThreshold(explicit, ThresholdFor(|onchain|)).Ok?
  {
    hide ThresholdFor, IsEligible;
    if onchain == [] {
      return Err(Unseated);
    }
    var threshold :- MotionThreshold(explicit, ThresholdFor(|onchain|));
    var seen: set<Account> := {};
    var eligible: seq<nat> := [];
    NoneEligible(onchain, locals);
    for i := 0 to |locals|
      invariant seen == Held(onchain, locals[..i])
      invariant IsEligible(onchain, locals[..i], eligible)
    {
      EligibleSnoc(onchain, locals, i, eligible);
      HeldSnoc(onchain, locals, i);
      if locals[i] in onchain {
        if locals[i] !in seen {
          eligible := eligible + [i];
        }
        seen := seen + {locals[i]};
      }
    }
    assert locals[..|locals|] == locals;
    EligibleCount(onchain, locals, eligible);
    if |eligible| < threshold {
      return Err(TooFewKeys);
    }
    res := Ok(Resolved(threshold, |onchain|, eligible));
  }

  lemma NoneEligible(onchain: seq<Account>, locals: seq<Account>)
    ensures IsEligible(onchain, locals[..0], [])
  {
  }

  lemma EligibleCount(onchain: seq<Account>, locals: seq<Account>, eligible: seq<nat>)
    requires IsEligible(onchain, locals, eligible)
    ensures |eligible| == |Held(onchain, locals)|
  {
    ChosenDistinct(onchain, locals, eligible, |eligible|);
    assert eligible[..|eligible|] == eligible;
  }

  /** The voters a driver takes: `threshold` distinct members, who carry the motion. */
  lemma VotersCarry(onchain: seq<Account>, locals: seq<Account>, r: Resolved)
    requires onchain != [] && 3 * |onchain| <= 5 * (U32_LIMIT - 1)
    requires IsEligible(onchain, locals, r.eligible) && ThresholdFor(|onchain|) <= r.threshold <= |r.eligible|
    ensures var voters := Chosen(locals, r.eligible[..r.threshold]);
            |voters| == r.threshold && voters <= Seats(onchain) && Carries(|voters|, |onchain|)
  {
    hide ThresholdFor, IsEligible;
    ChosenDistinct(onchain, locals, r.eligible, r.threshold);
    ThresholdIsLeast(|onchain|);
  }
}
