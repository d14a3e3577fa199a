/** `query authors` (`cli/src/query.rs`): resolving a time window to heights, and tallying block authors with the
    validator set cached per session. */
module Authors {
  import opened Prelude

  type Account = Bytes

  /** What is read of one block; `slot` is its Aura pre-runtime digest, if it has one. */
  datatype Block = Block(time: u64, slot: Option<u64>, session: nat, validators: seq<Account>)

  /** The blocks the endpoint has a hash for, by height. */
  type Chain = map<nat, Block>

  datatype Error = BothFrom | BothTo | TimeOutOfRange | MissingBlock | EmptyRange

  // ---------- the lower bound ----------

  predicate Complete(chain: Chain, tip: nat) {
    forall n :: 1 <= n <= tip ==> n in chain
  }

  predicate NonDecreasing(chain: Chain, tip: nat)
    requires Complete(chain, tip)
  {
    forall m, n :: 1 <= m <= n <= tip ==> chain[m].time <= chain[n].time
  }

  /** `first_block_at_or_after`. It fails only on a missing block; with non-decreasing times it splits the chain. */
  method FirstBlockAtOrAfter(chain: Chain, target: u64, tip: nat) returns (res: Result<nat, Error>)
    ensures Complete(chain, tip) ==> res.Ok?
    ensures res.Ok? ==> 1 <= res.value <= tip + 1
    ensures res.Ok? && Complete(chain, tip) && NonDecreasing(chain, tip) ==>
              forall n :: 1 <= n <= tip ==> (n >= res.value <==> chain[n].time >= target)
  {
    ghost var sorted := Complete(chain, tip) && NonDecreasing(chain, tip);
    var lo, hi := 1, tip + 1;
    while lo < hi
      invariant 1 <= lo <= hi <= tip + 1
      invariant sorted ==> forall n :: 1 <= n < lo ==> chain[n].time < target
      invariant sorted ==> forall n :: hi <= n <= tip ==> chain[n].time >= target
    {
      var mid := lo + (hi - lo) / 2;
      if mid !in chain {
        return Err(MissingBlock);
      }
      if chain[mid].time >= target {
        hi := mid;
      } else {
        lo := mid + 1;
      }
    }
    res := Ok(lo);
  }

  // ---------- the window ----------

  /** Unix seconds to milliseconds, checked. */
  function ToMs(secs: int): (r: Result<u64, Error>)
    ensures r.Ok? <==> 0 <= secs && secs * 1000 < U64_LIMIT
    ensures r.Ok? ==> r.value == secs * 1000 && r.value + 1 < U64_LIMIT
  {
    if secs < 0 || secs * 1000 >= U64_LIMIT then Err(TimeOutOfRange) else Ok(secs * 1000)
  }

  datatype Request = Request(from: Option<nat>, to: Option<nat>, fromTime: Option<int>, toTime: Option<int>)

  predicate WellPosed(r: Request) {
    (r.from.None? || r.fromTime.None?) && (r.to.None? || r.toTime.None?)
    && (r.fromTime.Some? ==> ToMs(r.fromTime.value).Ok?) && (r.toTime.Some? ==> ToMs(r.toTime.value).Ok?)
  }

  /** The block at height `n` lies inside every bound the request names. */
  predicate Inside(chain: Chain, r: Request, n: nat)
    requires n in chain
  {
    (r.from.Some? ==> n >= r.from.value) && (r.to.Some? ==> n <= r.to.value)
    && (r.fromTime.Some? ==> chain[n].time >= r.fromTime.value * 1000)
    && (r.toTime.Some? ==> chain[n].time <= r.toTime.value * 1000)
  }

  predicate Sorted(chain: Chain, tip: nat) {
    Complete(chain, tip) && NonDecreasing(chain, tip)
  }

  /** The range resolution of `run_authors`: exactly the blocks inside the bounds, or an error when there are none. */
  method ResolveRange(chain: Chain, tip: nat, r: Request) returns (res: Result<(nat, nat), Error>)
    ensures res.Ok? ==> WellPosed(r) && 1 <= res.value.0 <= res.value.1 && (r.to.None? ==> res.value.1 <= tip)
    ensures res.Ok? && Sorted(chain, tip) ==>
              forall n :: 1 <= n <= tip ==> (res.value.0 <= n <= res.value.1 <==> Inside(chain, r, n))
    ensures WellPosed(r) && Complete(chain, tip) ==> res.Ok? || res.error == EmptyRange
    ensures res == Err(EmptyRange) && Sorted(chain, tip) ==> forall n :: 1 <= n <= tip ==> !Inside(chain, r, n)
  {
    hide NonDecreasing;
    if r.from.Some? && r.fromTime.Some? {
      return Err(BothFrom);
    }
    if r.to.Some? && r.toTime.Some? {
      return Err(BothTo);
    }
    var from := 1;
    if r.from.Some? {
      from := if r.from.value < 1 then 1 else r.from.value;
    } else if r.fromTime.Some? {
      var ms :- ToMs(r.fromTime.value);
      from :- FirstBlockAtOrAfter(chain, ms, tip);
    }
    var to := tip;
    if r.to.Some? {
      to := r.to.value;
    } else if r.toTime.Some? {
      var ms :- ToMs(r.toTime.value);
      var after :- FirstBlockAtOrAfter(chain, ms + 1, tip);
      to := after - 1;
    }
    if !(from >= 1 && from <= to) {
      return Err(EmptyRange);
    }
    res := Ok((from, to));
  }

  // ---------- the tally ----------

  /** The Aura rule: the slot picks from the validator set. */
  function Attribute(slot: Option<u64>, validators: seq<Account>): Option<Account> {
    if slot.None? || validators == [] then None else Some(validators[slot.value % |validators|])
  }

  /** Round robin: of a set of `n` validators, validator `i` has every `n`-th slot from `i` on. */
  lemma RoundRobin(validators: seq<Account>, round: nat, i: nat)
    requires i < |validators| && round * |validators| + i < U64_LIMIT
    ensures Attribute(Some(round * |validators| + i), validators) == Some(validators[i])
  {
    var n := |validators|;
    var slot := round * n + i;
    RemainderUnique(round, i, slot / n, slot % n, n);
  }

  lemma RemainderUnique(q: nat, r: nat, q': nat, r': nat, n: nat)
    requires r < n && r' < n && q * n + r == q' * n + r'
    ensures q == q' && r == r'
  {
    if q < q' {
      ProductGap(q, q', n);
    } else if q' < q {
      ProductGap(q', q, n);
    }
  }

  lemma ProductGap(a: nat, b: nat, n: nat)
    requires a < b
    ensures a * n + n <= b * n
  {
    assert b * n == a * n + n + (b - a - 1) * n;
  }

  /** The author an uncached read of the block itself gives. */
  function AuthorOf(b: Block): Option<Account> {
    Attribute(b.slot, b.validators)
  }

  /** The heights from `from` up to but not including `n` all have blocks. */
  predicate Present(chain: Chain, from: nat, n: nat) {
    from <= n && forall k :: from <= k < n ==> k in chain
  }

  /** The session and validator set the walk holds after the blocks before `n`. */
  function Held(chain: Chain, from: nat, n: nat): Option<(nat, seq<Account>)>
    requires Present(chain, from, n)
  {
    if n == from then None else
    var h, b := Held(chain, from, n - 1), chain[n - 1];
    if b.slot.None? || (h.Some? && h.value.0 == b.session) then h else Some((b.session, b.validators))
  }

  function CachedAuthor(chain: Chain, from: nat, n: nat): Option<Account>
    requires Present(chain, from, n + 1) && from <= n
  {
    var h := Held(chain, from, n + 1);
    if h.None? then None else Attribute(chain[n].slot, h.value.1)
  }

  /** How many of the blocks walked before `n` the cache attributes to `who`. */
  function CachedCount(chain: Chain, from: nat, n: nat, who: Option<Account>): nat
    requires Present(chain, from, n)
  {
    if n == from then 0 else
    CachedCount(chain, from, n - 1, who) + if CachedAuthor(chain, from, n - 1) == who then 1 else 0
  }

  function PlainCount(chain: Chain, from: nat, n: nat, who: Option<Account>): nat
    requires Present(chain, from, n)
  {
    if n == from then 0 else
    PlainCount(chain, from, n - 1, who) + if AuthorOf(chain[n - 1]) == who then 1 else 0
  }

  datatype Tally = Tally(counts: map<Account, nat>, counted: nat, unattributed: nat, next: nat)

  function Count(counts: map<Account, nat>, who: Account): nat {
    if who in counts then counts[who] else 0
  }

  ghost function Total(counts: map<Account, nat>): nat {
    if counts == map[] then 0 else
    var k :| k in counts;
    counts[k] + Total(counts - {k})
  }

  lemma {:induction false} TotalRemove(counts: map<Account, nat>, who: Account)
    requires who in counts
    ensures Total(counts) == counts[who] + Total(counts - {who})
    decreases |counts|
  {
    var k :| k in counts && Total(counts) == counts[k] + Total(counts - {k});
    if k != who {
      TotalRemove(counts - {k}, who);
      TotalRemove(counts - {who}, k);
      assert counts - {k} - {who} == counts - {who} - {k};
    }
  }

  lemma TotalBump(counts: map<Account, nat>, who: Account)
    ensures Total(counts[who := Count(counts, who) + 1]) == Total(counts) + 1
  {
    var more := counts[who := Count(counts, who) + 1];
    TotalRemove(more, who);
    if who in counts {
      TotalRemove(counts, who);
      assert more - {who} == counts - {who};
    } else {
      assert more - {who} == counts;
    }
  }

  /** The tally is the cached attribution of the blocks walked; the counts add up, and every block walked is either
      counted or unattributed. */
  ghost predicate IsTally(chain: Chain, from: nat, t: Tally) {
    Present(chain, from, t.next)
    && (forall a :: Count(t.counts, a) == CachedCount(chain, from, t.next, Some(a)))
    && t.unattributed == CachedCount(chain, from, t.next, None)
    && Total(t.counts) == t.counted
    && t.counted + t.unattributed == t.next - from
  }

  /** The loop of `run_authors`, over `[from, to]`; `next` is one past the last block seen. */
  method RunTally(chain: Chain, from: nat, to: nat) returns (t: Tally)
    requires from <= to
    ensures IsTally(chain, from, t) && t.next <= to + 1 && (t.next <= to ==> t.next !in chain)
  {
    hide IsTally, CachedCount, Held, Present;
    var counts: map<Account, nat>, counted, unattributed := map[], 0, 0;
    var session: Option<nat>, validators: seq<Account> := None, [];
    EmptyTally(chain, from);
    var n := from;
    while n <= to
      invariant from <= n <= to + 1
      invariant IsTally(chain, from, Tally(counts, counted, unattributed, n))
      invariant Holds(chain, from, n, session, validators)
    {
      if n !in chain {
        break;
      }
      var b := chain[n];
      TallyStep(chain, from, Tally(counts, counted, unattributed, n), session, validators);
      if b.slot.None? {
        unattributed := unattributed + 1;
      } else {
        if session != Some(b.session) {
          validators := b.validators;
          session := Some(b.session);
        }
        if validators == [] {
          unattributed := unattributed + 1;
        } else {
          var who := validators[b.slot.value % |validators|];
          counts := counts[who := Count(counts, who) + 1];
          counted := counted + 1;
        }
      }
      n := n + 1;
    }
    t := Tally(counts, counted, unattributed, n);
  }

  /** The loop's two cache variables are the specification's cache. */
  ghost predicate Holds(chain: Chain, from: nat, n: nat, session: Option<nat>, validators: seq<Account>) {
    Present(chain, from, n)
    && Held(chain, from, n) == if session.None? then None else Some((session.value, validators))
  }

  lemma EmptyTally(chain: Chain, from: nat)
    ensures IsTally(chain, from, Tally(map[], 0, 0, from)) && Holds(chain, from, from, None, [])
  {
  }

  /** The tally with one more block, attributed or not. */
  function Counted(t: Tally, who: Option<Account>): Tally {
    if who.None? then t.(unattributed := t.unattributed + 1, next := t.next + 1)
    else Tally(t.counts[who.value := Count(t.counts, who.value) + 1], t.counted + 1, t.unattributed, t.next + 1)
  }

  /** One block's turn. */
  lemma TallyStep(chain: Chain, from: nat, t: Tally, session: Option<nat>, validators: seq<Account>)
    requires IsTally(chain, from, t) && t.next in chain && Holds(chain, from, t.next, session, validators)
    ensures var b := chain[t.next];
            var renewed := b.slot.Some? && session != Some(b.session);
            var session' := if renewed then Some(b.session) else session;
            var validators' := if renewed then b.validators else validators;
            Holds(chain, from, t.next + 1, session', validators')
            && IsTally(chain, from, Counted(t, Attribute(b.slot, validators')))
  {
    hide Total;
    var n, b := t.next, chain[t.next];
    assert Present(chain, from, n + 1);
    var who := CachedAuthor(chain, from, n);
    if who.Some? {
      TotalBump(t.counts, who.value);
    }
  }

  /** `run_authors`: the tally of exactly the finalized blocks inside the bounds (and, past the tip, of what an
      explicit `to` still reaches). */
  method RunAuthors(chain: Chain, tip: nat, r: Request) returns (res: Result<(nat, Tally), Error>)
    ensures res.Ok? ==> IsTally(chain, res.value.0, res.value.1)
    ensures res.Ok? && Sorted(chain, tip) ==>
              forall n :: 1 <= n <= tip ==> (res.value.0 <= n < res.value.1.next <==> Inside(chain, r, n))
    ensures res == Err(EmptyRange) && Sorted(chain, tip) ==> forall n :: 1 <= n <= tip ==> !Inside(chain, r, n)
  {
    hide IsTally, Inside, NonDecreasing;
    var range :- ResolveRange(chain, tip, r);
    var t := RunTally(chain, range.0, range.1);
    assert range.0 <= t.next by {
      TallyBounds(chain, range.0, t);
    }
    res := Ok((range.0, t));
  }

  lemma TallyBounds(chain: Chain, from: nat, t: Tally)
    requires IsTally(chain, from, t)
    ensures from <= t.next
  {
  }

  // ---------- the cache is faithful ----------

  /** Within the blocks walked, the validator set depends only on the session index. */
  predicate SessionDecides(chain: Chain, from: nat, n: nat)
    requires Present(chain, from, n)
  {
    forall i, j :: from <= i < j < n && chain[i].session == chain[j].session ==>
      chain[i].validators == chain[j].validators
  }

  lemma {:induction false} HeldFrom(chain: Chain, from: nat, n: nat) returns (m: nat)
    requires Present(chain, from, n) && Held(chain, from, n).Some?
    ensures from <= m < n && Held(chain, from, n).value == (chain[m].session, chain[m].validators)
  {
    var b := chain[n - 1];
    if b.slot.None? || (Held(chain, from, n - 1).Some? && Held(chain, from, n - 1).value.0 == b.session) {
      m := HeldFrom(chain, from, n - 1);
    } else {
      m := n - 1;
    }
  }

  lemma CacheFaithful(chain: Chain, from: nat, n: nat, k: nat)
    requires Present(chain, from, n) && SessionDecides(chain, from, n) && from <= k < n
    ensures CachedAuthor(chain, from, k) == AuthorOf(chain[k])
  {
    assert Present(chain, from, k + 1);
    var h := Held(chain, from, k + 1);
    if chain[k].slot.Some? {
      var m := HeldFrom(chain, from, k + 1);
    }
  }

  lemma {:induction false} CountsAgree(chain: Chain, from: nat, n: nat, k: nat, who: Option<Account>)
    requires Present(chain, from, n) && SessionDecides(chain, from, n) && from <= k <= n
    ensures CachedCount(chain, from, k, who) == PlainCount(chain, from, k, who)
    decreases k
  {
    hide Held, CachedAuthor;
    if k > from {
      CountsAgree(chain, from, n, k - 1, who);
      CacheFaithful(chain, from, n, k - 1);
    }
  }

  /** The cached tally counts each author's blocks exactly as reading every block's own validators would. */
  lemma TallyIsUncached(chain: Chain, from: nat, t: Tally, who: Account)
    requires IsTally(chain, from, t) && SessionDecides(chain, from, t.next)
    ensures Count(t.counts, who) == PlainCount(chain, from, t.next, Some(who))
    ensures t.unattributed == PlainCount(chain, from, t.next, None)
    ensures Total(t.counts) + t.unattributed == t.next - from
  {
    CountsAgree(chain, from, t.next, t.next, Some(who));
    CountsAgree(chain, from, t.next, t.next, None);
  }
}
