/** The committee motion driver (`cli/src/committee.rs`) against an endpoint that may answer anything: whatever
    the sequence of responses, success means the inner call was seen to execute in a finalized block. */
module Motion {
  import opened Prelude
  import opened Governance

  // ---------- what the chain shows ----------

  datatype Event =
    | Proposed(index: nat, hash: Hash32)
    | Approved(hash: Hash32)
    | Disapproved(hash: Hash32)
    | Executed(hash: Hash32, succeeded: bool)
    | ExtrinsicFailed
    | OtherEvent

  datatype Phase = ApplyExtrinsic(index: nat) | OtherPhase

  datatype Record = Record(phase: Phase, event: Event)

  datatype Call =
    | Propose(threshold: nat, inner: Bytes)
    | Vote(hash: Hash32, index: nat, approve: bool)
    | Close(hash: Hash32, index: nat)

  /** A signed extrinsic. Its encoding is injective, so the model compares the parts. */
  datatype Xt = Xt(call: Call, signer: Account, nonce: nat)

  /** A pool status; `None` is a hash that does not decode. */
  datatype Status =
    | Waiting
    | Dropped
    | Invalid
    | Usurped
    | FinalityTimeout
    | InBlock(block: Option<Hash32>)
    | Finalized(block: Option<Hash32>)

  datatype Error =
    | RpcFailed | Rejected | StreamEnded | Reverted | NotExecuted | Failed | NoProposedEvent | NoProposal
    | WrongPreimage | Unresolved | MotionDisapproved | TooFewVoters

  // ---------- ensure_executed ----------

  predicate Concerns(e: Event, want: Option<Hash32>) {
    e.Executed? && (want.Some? ==> e.hash == want.value)
  }

  /** An `Executed` event for the motion is there, and no such event reports a failed inner call. */
  predicate ExecutedOk(events: seq<Event>, want: Option<Hash32>) {
    (exists e :: e in events && Concerns(e, want)) && forall e :: e in events && Concerns(e, want) ==> e.succeeded
  }

  /** Event by event: for one motion, and with no motion named for all of them. */
  lemma ExecutedExact(events: seq<Event>, want: Option<Hash32>)
    ensures want.Some? ==>
              (ExecutedOk(events, want) <==>
               Executed(want.value, true) in events && Executed(want.value, false) !in events)
    ensures want.None? ==>
              (ExecutedOk(events, want) <==>
               (exists h :: Executed(h, true) in events) && forall h :: Executed(h, false) !in events)
  {
    forall e | e in events && e.Executed?
      ensures e == Executed(e.hash, e.succeeded)
    {
    }
    if want.Some? {
      assert Concerns(Executed(want.value, true), want) && Concerns(Executed(want.value, false), want);
    } else {
      assert forall h :: Concerns(Executed(h, true), want) && Concerns(Executed(h, false), want);
    }
  }

  method EnsureExecuted(events: seq<Event>, want: Option<Hash32>) returns (res: Result<(), Error>)
    ensures res.Ok? <==> ExecutedOk(events, want)
    ensures want.Some? ==>
              (res.Ok? <==> Executed(want.value, true) in events && Executed(want.value, false) !in events)
    ensures res == Err(NotExecuted) <==> forall e :: e in events && e.Executed? ==> want.Some? && e.hash != want.value
  {
    ExecutedExact(events, want);
    var found := false;
    for i := 0 to |events|
      invariant found <==> exists e :: e in events[..i] && Concerns(e, want)
      invariant forall e :: e in events[..i] && Concerns(e, want) ==> e.succeeded
    {
      var e := events[i];
      assert e in events && events[..i + 1] == events[..i] + [e];
      if Concerns(e, want) {
        found := true;
        if !e.succeeded {
          return Err(Reverted);
        }
      }
    }
    assert events[..|events|] == events;
    if !found {
      return Err(NotExecuted);
    }
    res := Ok(());
  }

  // ---------- watching one extrinsic ----------

  datatype WatchStep = KeepWatching | Landed(block: Hash32) | Ends(error: Error)

  /** `classify_tx_status`. */
  function Classify(s: Status, finalize: bool): WatchStep {
    match s
    case Waiting => KeepWatching
    case Dropped => Ends(Rejected)
    case Invalid => Ends(Rejected)
    case Usurped => Ends(Rejected)
    case FinalityTimeout => Ends(Rejected)
    case InBlock(b) => if finalize then KeepWatching else if b.Some? then Landed(b.value) else Ends(RpcFailed)
    case Finalized(b) => if b.Some? then Landed(b.value) else Ends(RpcFailed)
  }

  /** The outcome of a subscription; an item `None` is a subscription error, the end of the list a closed stream
      or the timeout. */
  function Watch(items: seq<Option<Status>>, finalize: bool): Result<Hash32, Error> {
    if items == [] then Err(StreamEnded)
    else if items[0].None? then Err(RpcFailed)
    else match Classify(items[0].value, finalize)
      case KeepWatching => Watch(items[1..], finalize)
      case Landed(b) => Ok(b)
      case Ends(e) => Err(e)
  }

  /** A status that settles nothing: waiting, and under a finalizing wait also inclusion. */
  predicate Pending(item: Option<Status>, finalize: bool) {
    item == Some(Waiting) || (finalize && item.Some? && item.value.InBlock?)
  }

  lemma {:induction false} WatchSkips(items: seq<Option<Status>>, finalize: bool, k: nat)
    requires k <= |items| && forall i :: 0 <= i < k ==> Pending(items[i], finalize)
    ensures Watch(items, finalize) == Watch(items[k..], finalize)
  {
    if k > 0 {
      WatchSkips(items[1..], finalize, k - 1);
      assert items[1..][k - 1..] == items[k..];
    } else {
      assert items[0..] == items;
    }
  }

  /** The first item that settles the watch, or the length. */
  lemma FirstSettled(items: seq<Option<Status>>, finalize: bool) returns (k: nat)
    ensures k <= |items| && forall i :: 0 <= i < k ==> Pending(items[i], finalize)
    ensures k < |items| ==> !Pending(items[k], finalize)
    ensures Watch(items, finalize) == Watch(items[k..], finalize)
  {
    k := 0;
    while k < |items| && Pending(items[k], finalize)
      invariant k <= |items| && forall i :: 0 <= i < k ==> Pending(items[i], finalize)
    {
      k := k + 1;
    }
    WatchSkips(items, finalize, k);
  }

  /** A wait for inclusion returns a block exactly when that block's inclusion or finalization comes after nothing
      but waiting. */
  lemma InBlockMeansInBlock(items: seq<Option<Status>>, block: Hash32)
    ensures Watch(items, false) == Ok(block) <==>
            exists k :: 0 <= k < |items|
              && (items[k] == Some(InBlock(Some(block))) || items[k] == Some(Finalized(Some(block))))
              && forall i :: 0 <= i < k ==> items[i] == Some(Waiting)
  {
    var first := FirstSettled(items, false);
    if k :| 0 <= k < |items|
            && (items[k] == Some(InBlock(Some(block))) || items[k] == Some(Finalized(Some(block))))
            && forall i :: 0 <= i < k ==> items[i] == Some(Waiting) {
      WatchSkips(items, false, k);
    }
  }

  /** A finalizing wait returns a block exactly when that block's finalization comes after nothing but waiting and
      inclusion. */
  lemma FinalizedMeansFinalized(items: seq<Option<Status>>, block: Hash32)
    ensures Watch(items, true) == Ok(block) <==>
            exists k :: 0 <= k < |items| && items[k] == Some(Finalized(Some(block)))
              && forall i :: 0 <= i < k ==> items[i] == Some(Waiting) || (items[i].Some? && items[i].value.InBlock?)
  {
    var first := FirstSettled(items, true);
    if k :| 0 <= k < |items| && items[k] == Some(Finalized(Some(block)))
            && forall i :: 0 <= i < k ==> items[i] == Some(Waiting) || (items[i].Some? && items[i].value.InBlock?) {
      WatchSkips(items, true, k);
    }
  }

  /** Either wait at once. */
  ghost predicate LandsIn(items: seq<Option<Status>>, finalize: bool, block: Hash32) {
    exists k :: 0 <= k < |items|
      && (items[k] == Some(Finalized(Some(block))) || (!finalize && items[k] == Some(InBlock(Some(block)))))
      && forall i :: 0 <= i < k ==> Pending(items[i], finalize)
  }

  lemma WatchLands(items: seq<Option<Status>>, finalize: bool)
    ensures forall block :: Watch(items, finalize) == Ok(block) <==> LandsIn(items, finalize, block)
  {
    forall block
      ensures Watch(items, finalize) == Ok(block) <==> LandsIn(items, finalize, block)
    {
      if finalize {
        FinalizedMeansFinalized(items, block);
      } else {
        InBlockMeansInBlock(items, block);
      }
    }
  }

  /** The pool's refusals, and a stream that settles nothing. */
  lemma WatchFails(items: seq<Option<Status>>, finalize: bool)
    ensures Watch(items, finalize) == Err(Rejected) <==>
            exists k :: 0 <= k < |items| && Refused(items[k]) && forall i :: 0 <= i < k ==> Pending(items[i], finalize)
    ensures Watch(items, finalize) == Err(StreamEnded) <==>
            forall i :: 0 <= i < |items| ==> Pending(items[i], finalize)
  {
    var first := FirstSettled(items, finalize);
    if k :| 0 <= k < |items| && Refused(items[k]) && forall i :: 0 <= i < k ==> Pending(items[i], finalize) {
      WatchSkips(items, finalize, k);
    }
  }

  predicate Refused(item: Option<Status>) {
    item in {Some(Dropped), Some(Invalid), Some(Usurped), Some(FinalityTimeout)}
  }

  // ---------- the endpoint ----------

  /** One response. A call that meets a response it cannot decode fails. */
  datatype Answer =
    | Failure
    | Nonce(n: nat)
    | Watching(items: seq<Option<Status>>)
    | Body(xts: seq<Xt>)
    | Events(records: seq<Record>)
    | Stored(call: Option<Bytes>)

  /** What the driver did and was told, for the statements below. */
  datatype Step =
    | Submitted(xt: Xt, finalize: bool, items: seq<Option<Status>>)
    | ReadBody(block: Hash32, xts: seq<Xt>)
    | ReadEvents(block: Hash32, records: seq<Record>)

  function EventsOf(records: seq<Record>): (events: seq<Event>)
    ensures |events| == |records| && forall i :: 0 <= i < |records| ==> events[i] == records[i].event
  {
    if records == [] then [] else [records[0].event] + EventsOf(records[1..])
  }

  /** Past the end of the script the endpoint is gone. */
  function First(script: seq<Answer>): Answer {
    if script == [] then Failure else script[0]
  }

  function Rest(script: seq<Answer>): seq<Answer> {
    if script == [] then [] else script[1..]
  }

  class Rpc {
    var script: seq<Answer>
    ghost var log: seq<Step>

    constructor (answers: seq<Answer>)
      ensures script == answers && log == []
    {
      script, log := answers, [];
    }

    method Next() returns (a: Answer)
      modifies `script
      ensures a == First(old(script)) && script == Rest(old(script))
    {
      if script == [] {
        return Failure;
      }
      a := script[0];
      script := script[1..];
    }

    method AccountNonce() returns (res: Result<nat, Error>)
      modifies `script
      ensures script == Rest(old(script))
      ensures res == if First(old(script)).Nonce? then Ok(First(old(script)).n) else Err(RpcFailed)
    {
      var a := Next();
      res := if a.Nonce? then Ok(a.n) else Err(RpcFailed);
    }

    method SubmitAndWatch(xt: Xt, finalize: bool) returns (res: Result<Hash32, Error>)
      modifies this
      ensures |log| == |old(log)| + 1 && log[..|old(log)|] == old(log)
      ensures var s := log[|old(log)|];
              s.Submitted? && s.xt == xt && s.finalize == finalize
              && s.items == (if First(old(script)).Watching? then First(old(script)).items else [])
              && (res.Ok? ==> Watch(s.items, finalize) == res) && (Watch(s.items, finalize).Ok? ==> res.Ok?)
      ensures res == if First(old(script)).Watching? then Watch(First(old(script)).items, finalize) else Err(RpcFailed)
      ensures script == Rest(old(script)) && (res.Ok? ==> First(old(script)).Watching?)
      ensures var a := First(old(script));
              forall block :: res == Ok(block) <==> a.Watching? && LandsIn(a.items, finalize, block)
    {
      hide LandsIn;
      var a := Next();
      if !a.Watching? {
        log := log + [Submitted(xt, finalize, [])];
        return Err(RpcFailed);
      }
      log := log + [Submitted(xt, finalize, a.items)];
      WatchLands(a.items, finalize);
      for i := 0 to |a.items|
        invariant Watch(a.items, finalize) == Watch(a.items[i..], finalize)
      {
        assert a.items[i..][1..] == a.items[i + 1..];
        if a.items[i].None? {
          return Err(RpcFailed);
        }
        match Classify(a.items[i].value, finalize)
        case KeepWatching =>
        case Landed(b) => return Ok(b);
        case Ends(e) => return Err(e);
      }
      res := Err(StreamEnded);
    }

    method EventsWithPhaseAt(block: Hash32) returns (res: Result<seq<Record>, Error>)
      modifies this
      ensures log == if res.Ok? then old(log) + [ReadEvents(block, res.value)] else old(log)
      ensures res == if First(old(script)).Events? then Ok(First(old(script)).records) else Err(RpcFailed)
      ensures script == Rest(old(script))
    {
      var a := Next();
      if !a.Events? {
        return Err(RpcFailed);
      }
      log := log + [ReadEvents(block, a.records)];
      res := Ok(a.records);
    }

    method BlockExtrinsics(block: Hash32) returns (res: Result<seq<Xt>, Error>)
      modifies this
      ensures log == if res.Ok? then old(log) + [ReadBody(block, res.value)] else old(log)
      ensures res == if First(old(script)).Body? then Ok(First(old(script)).xts) else Err(RpcFailed)
      ensures script == Rest(old(script))
    {
      var a := Next();
      if !a.Body? {
        return Err(RpcFailed);
      }
      log := log + [ReadBody(block, a.xts)];
      res := Ok(a.xts);
    }

    /** `proposal_of`, with its preimage check. */
    method ProposalOf(blake: Bytes -> Hash32, hash: Hash32) returns (res: Result<Option<Bytes>, Error>)
      modifies `script
      ensures script == Rest(old(script))
      ensures res.Ok? ==> First(old(script)) == Stored(res.value)
      ensures res.Ok? && res.value.Some? ==> blake(res.value.value) == hash
      ensures res.Err? ==> var a := First(old(script)); !a.Stored? || (a.call.Some? && blake(a.call.value) != hash)
    {
      var a := Next();
      if !a.Stored? {
        return Err(RpcFailed);
      }
      if a.call.Some? && blake(a.call.value) != hash {
        return Err(WrongPreimage);
      }
      res := Ok(a.call);
    }
  }

  // ---------- attributing a failure ----------

  /** Our extrinsic's first position carries a failure. */
  predicate Blames(xts: seq<Xt>, records: seq<Record>, xt: Xt) {
    exists i :: 0 <= i < |xts| && xts[i] == xt && xt !in xts[..i]
      && Record(ApplyExtrinsic(i), ExtrinsicFailed) in records
  }

  /** What a passed check amounts to: the block does not hold our extrinsic, or its records blame nothing on it. */
  ghost predicate Cleared(before: seq<Step>, after: seq<Step>, block: Hash32, xt: Xt) {
    (exists xts :: after == before + [ReadBody(block, xts)] && xt !in xts)
    || exists xts, records ::
         after == before + [ReadBody(block, xts)] + [ReadEvents(block, records)] && xt in xts
           && !Blames(xts, records, xt)
  }

  /** The responses left when the check passes, if it does. */
  function Clears(script: seq<Answer>, xt: Xt): Option<seq<Answer>> {
    var body, read := First(script), First(Rest(script));
    if !body.Body? then None
    else if xt !in body.xts then Some(Rest(script))
    else if read.Events? && !Blames(body.xts, read.records, xt) then Some(Rest(Rest(script)))
    else None
  }

  method AssertExtrinsicOk(rpc: Rpc, block: Hash32, xt: Xt) returns (res: Result<(), Error>)
    modifies rpc
    ensures res.Ok? ==> Cleared(old(rpc.log), rpc.log, block, xt)
    ensures res.Ok? <==> Clears(old(rpc.script), xt).Some?
    ensures res.Ok? ==> Some(rpc.script) == Clears(old(rpc.script), xt)
    ensures old(rpc.log) <= rpc.log && Asked(rpc.log) == Asked(old(rpc.log))
  {
    hide Asked, Cleared, Blames;
    ghost var before := rpc.log;
    var xts :- rpc.BlockExtrinsics(block);
    AskedRead(before, ReadBody(block, xts));
    var idx := Locate(xts, xt);
    if idx == |xts| {
      ClearedAbsent(before, block, xts, xt);
      return Ok(());
    }
    var records :- rpc.EventsWithPhaseAt(block);
    AskedRead(before + [ReadBody(block, xts)], ReadEvents(block, records));
    BlamesFirst(xts, records, idx, xt);
    var failed := FailedAt(records, idx);
    if failed {
      return Err(Failed);
    }
    ClearedClean(before, block, xts, records, idx, xt);
    res := Ok(());
  }

  method FailedAt(records: seq<Record>, idx: nat) returns (failed: bool)
    ensures failed <==> Record(ApplyExtrinsic(idx), ExtrinsicFailed) in records
  {
    for k := 0 to |records|
      invariant Record(ApplyExtrinsic(idx), ExtrinsicFailed) !in records[..k]
    {
      if records[k] == Record(ApplyExtrinsic(idx), ExtrinsicFailed) {
        return true;
      }
    }
    assert records[..|records|] == records;
    failed := false;
  }

  /** Our extrinsic's first position in a block body, or its length. */
  method Locate(xts: seq<Xt>, xt: Xt) returns (idx: nat)
    ensures idx <= |xts| && xt !in xts[..idx] && (idx < |xts| ==> xts[idx] == xt)
  {
    idx := 0;
    while idx < |xts| && xts[idx] != xt
      invariant 0 <= idx <= |xts| && xt !in xts[..idx]
    {
      idx := idx + 1;
    }
  }

  lemma ClearedAbsent(before: seq<Step>, block: Hash32, xts: seq<Xt>, xt: Xt)
    requires xt !in xts[..|xts|]
    ensures xt !in xts && Cleared(before, before + [ReadBody(block, xts)], block, xt)
  {
    assert xts[..|xts|] == xts;
  }

  lemma ClearedClean(before: seq<Step>, block: Hash32, xts: seq<Xt>, records: seq<Record>, idx: nat, xt: Xt)
    requires idx < |xts| && xts[idx] == xt && xt !in xts[..idx]
    requires Record(ApplyExtrinsic(idx), ExtrinsicFailed) !in records
    ensures Cleared(before, before + [ReadBody(block, xts)] + [ReadEvents(block, records)], block, xt)
  {
    hide Blames;
    BlamesFirst(xts, records, idx, xt);
    assert xt in xts;
  }

  /** The blame falls on the first position. */
  lemma BlamesFirst(xts: seq<Xt>, records: seq<Record>, idx: nat, xt: Xt)
    requires idx < |xts| && xts[idx] == xt && xt !in xts[..idx]
    ensures Blames(xts, records, xt) <==> Record(ApplyExtrinsic(idx), ExtrinsicFailed) in records
    ensures xt in xts
  {
    OnlyFirst(xts, idx, xt);
  }

  lemma OnlyFirst(xts: seq<Xt>, idx: nat, xt: Xt)
    requires idx < |xts| && xts[idx] == xt && xt !in xts[..idx]
    ensures forall i :: 0 <= i < |xts| && xts[i] == xt && xt !in xts[..i] ==> i == idx
  {
    assert forall i :: idx < i < |xts| ==> xts[..i][idx] == xt;
  }

  // ---------- the driver ----------

  /** One request to change the chain. */
  datatype Ask = Ask(call: Call, signer: Account, finalize: bool)

  ghost function AskOf(s: Step): seq<Ask> {
    if s.Submitted? then [Ask(s.xt.call, s.xt.signer, s.finalize)] else []
  }

  ghost function Asked(log: seq<Step>): seq<Ask> {
    if log == [] then [] else Asked(log[..|log| - 1]) + AskOf(log[|log| - 1])
  }

  lemma AskedRead(log: seq<Step>, s: Step)
    ensures Asked(log + [s]) == Asked(log) + AskOf(s)
  {
    assert (log + [s])[..|log|] == log;
  }

  lemma AskedStep(before: seq<Step>, log: seq<Step>)
    requires |log| == |before| + 1 && log[..|before|] == before
    ensures Asked(log) == Asked(before) + AskOf(log[|before|])
  {
  }

  /** The call was submitted, and its own watch reported `block` finalized. */
  ghost predicate FinalizedIn(log: seq<Step>, i: int, call: Call, block: Hash32) {
    0 <= i < |log| && log[i].Submitted? && log[i].finalize && log[i].xt.call == call
    && Some(Finalized(Some(block))) in log[i].items
  }

  ghost predicate Settled(log: seq<Step>, call: Call, block: Hash32) {
    exists i :: FinalizedIn(log, i, call, block)
  }

  /** The inner call was seen to execute: the last thing read is the events of the block our call was finalized in,
      and they hold a successful execution of this motion and no failed one. */
  ghost predicate Delivered(log: seq<Step>, call: Call, hash: Hash32) {
    log != [] && log[|log| - 1].ReadEvents? && ExecutedOk(EventsOf(log[|log| - 1].records), Some(hash))
    && Settled(log, call, log[|log| - 1].block)
  }

  /** The finalized close removed the motion without executing it. */
  ghost predicate Dismissed(log: seq<Step>, call: Call, hash: Hash32) {
    log != [] && log[|log| - 1].ReadEvents? && Settled(log, call, log[|log| - 1].block)
    && var events := EventsOf(log[|log| - 1].records); Disapproved(hash) in events && Approved(hash) !in events
  }

  /** An endpoint that tells the truth: finalized statuses name finalized blocks, event reads are the block's own. */
  ghost predicate Truthful(log: seq<Step>, finalized: set<Hash32>, events: map<Hash32, seq<Record>>) {
    (forall i, b :: 0 <= i < |log| && log[i].Submitted? && Some(Finalized(Some(b))) in log[i].items ==> b in finalized)
    && forall i :: 0 <= i < |log| && log[i].ReadEvents? ==>
       log[i].block in events && events[log[i].block] == log[i].records
  }

  /** Behind a truthful endpoint, delivery is a fact of the chain. */
  lemma DeliveredOnChain(log: seq<Step>, call: Call, hash: Hash32, finalized: set<Hash32>,
                         events: map<Hash32, seq<Record>>)
    requires Delivered(log, call, hash) && Truthful(log, finalized, events)
    ensures exists b :: b in finalized && b in events && Executed(hash, true) in EventsOf(events[b])
                        && Executed(hash, false) !in EventsOf(events[b])
  {
    hide ExecutedOk, EventsOf;
    ExecutedExact(EventsOf(log[|log| - 1].records), Some(hash));
    var block := log[|log| - 1].block;
    var i :| FinalizedIn(log, i, call, block);
    assert block in finalized && block in events;
  }

  lemma SubmissionFinalized(before: seq<Step>, after: seq<Step>, log: seq<Step>, call: Call, block: Hash32)
    requires |after| == |before| + 1 && after <= log && after[|before|].Submitted?
    requires after[|before|].finalize && after[|before|].xt.call == call
             && Watch(after[|before|].items, true) == Ok(block)
    ensures Settled(log, call, block)
  {
    FinalizedMeansFinalized(after[|before|].items, block);
    assert log[|before|] == after[|before|];
    assert FinalizedIn(log, |before|, call, block);
  }

  /** The responses under which a sole seat's proposal succeeds. */
  predicate Executes(script: seq<Answer>, hash: Hash32) {
    var watch, read := First(Rest(script)), First(Rest(Rest(script)));
    First(script).Nonce? && watch.Watching? && Watch(watch.items, true).Ok?
    && read.Events? && ExecutedOk(EventsOf(read.records), Some(hash))
  }

  /** The responses left when one submission lands and is not blamed for a failure, if it does. */
  function Submits(script: seq<Answer>, call: Call, signer: Account, finalize: bool): Option<seq<Answer>> {
    var nonce, watch := First(script), First(Rest(script));
    if nonce.Nonce? && watch.Watching? && Watch(watch.items, finalize).Ok?
    then Clears(Rest(Rest(script)), Xt(call, signer, nonce.n))
    else None
  }

  /** The index a proposal opens under, and the responses left. */
  function Opens(script: seq<Answer>, hash: Hash32, inner: Bytes, proposer: Account, threshold: nat)
    : Option<(nat, seq<Answer>)>
  {
    var left := Submits(script, Propose(threshold, inner), proposer, false);
    if left.None? || !First(left.value).Events? then None else
    var index := ProposalIndexFor(EventsOf(First(left.value).records), hash);
    if index.None? then None else Some((index.value, Rest(left.value)))
  }

  /** The responses under which a close approves and executes. */
  predicate Closes(script: seq<Answer>, blake: Bytes -> Hash32, hash: Hash32, index: nat, closer: Account) {
    var stored := First(script);
    stored.Stored? && stored.call.Some? && blake(stored.call.value) == hash
    && var left := Submits(Rest(script), Close(hash, index), closer, true);
       left.Some? && First(left.value).Events?
       && var events := EventsOf(First(left.value).records); Approved(hash) in events && ExecutedOk(events, Some(hash))
  }

  datatype ProposeOutcome = ExecutedOnPropose(block: Hash32) | Open(hash: Hash32, index: nat)

  /** The arm for a threshold of one: the inner call executes on propose. */
  method ProposeAlone(rpc: Rpc, blake: Bytes -> Hash32, inner: Bytes, xt: Xt) returns (res: Result<Hash32, Error>)
    requires xt.call.Propose?
    modifies rpc
    ensures Asked(rpc.log) == Asked(old(rpc.log)) + [Ask(xt.call, xt.signer, true)]
    ensures res.Ok? ==> Delivered(rpc.log, xt.call, blake(inner))
    ensures var watch, read := First(old(rpc.script)), First(Rest(old(rpc.script)));
            res.Ok? <==> watch.Watching? && Watch(watch.items, true).Ok?
                         && read.Events? && ExecutedOk(EventsOf(read.records), Some(blake(inner)))
  {
    hide Asked, LandsIn, ExecutedOk, EventsOf;
    ghost var before := rpc.log;
    var landed := rpc.SubmitAndWatch(xt, true);
    ghost var after := rpc.log;
    AskedStep(before, after);
    var block :- landed;
    var records :- rpc.EventsWithPhaseAt(block);
    AskedRead(after, ReadEvents(block, records));
    var checked := EnsureExecuted(EventsOf(records), Some(blake(inner)));
    if checked.Err? {
      return Err(checked.error);
    }
    SubmissionFinalized(before, after, rpc.log, xt.call, block);
    res := Ok(block);
  }

  /** One submission, found blameless in its block, and then that block's events. */
  ghost predicate ClearedThenRead(before: seq<Step>, log: seq<Step>) {
    |log| >= |before| + 2 && log[|before|].Submitted? && log[|log| - 1].ReadEvents?
    && Cleared(log[..|before| + 1], log[..|log| - 1], log[|log| - 1].block, log[|before|].xt)
  }

  lemma ClearedReads(before: seq<Step>, after: seq<Step>, checked: seq<Step>, block: Hash32, xt: Xt,
                     records: seq<Record>)
    requires |after| == |before| + 1 && after <= checked && after[|before|].Submitted? && after[|before|].xt == xt
    requires Cleared(after, checked, block, xt)
    ensures ClearedThenRead(before, checked + [ReadEvents(block, records)])
  {
    hide Cleared;
    var log := checked + [ReadEvents(block, records)];
    assert log[..|before| + 1] == after && log[..|log| - 1] == checked && log[|before|] == after[|before|];
  }

  method ProposeMotion(rpc: Rpc, blake: Bytes -> Hash32, inner: Bytes, proposer: Account, threshold: nat)
    returns (res: Result<ProposeOutcome, Error>)
    modifies rpc
    ensures var ask := Ask(Propose(threshold, inner), proposer, threshold == 1);
            Asked(rpc.log) == Asked(old(rpc.log)) + [ask] || (res.Err? && Asked(rpc.log) == Asked(old(rpc.log)))
    ensures res.Ok? ==> (res.value.ExecutedOnPropose? <==> threshold == 1)
    ensures res.Ok? && res.value.ExecutedOnPropose? ==> Delivered(rpc.log, Propose(threshold, inner), blake(inner))
    ensures res.Ok? && res.value.Open? ==> res.value.hash == blake(inner) && ClearedThenRead(old(rpc.log), rpc.log)
    ensures threshold == 1 ==> (res.Ok? <==> Executes(old(rpc.script), blake(inner)))
    ensures threshold != 1 ==> var o := Opens(old(rpc.script), blake(inner), inner, proposer, threshold);
                               (res.Ok? <==> o.Some?) && (res.Ok? ==> o == Some((res.value.index, rpc.script)))
  {
    hide Asked, Watch, LandsIn, ExecutedOk, Cleared, EventsOf, Delivered, Clears, ClearedThenRead;
    var nonce :- rpc.AccountNonce();
    var xt := Xt(Propose(threshold, inner), proposer, nonce);
    if threshold == 1 {
      var block :- ProposeAlone(rpc, blake, inner, xt);
      return Ok(ExecutedOnPropose(block));
    }
    ghost var before := rpc.log;
    var landed := rpc.SubmitAndWatch(xt, false);
    ghost var after := rpc.log;
    AskedStep(before, after);
    var block :- landed;
    var ok := AssertExtrinsicOk(rpc, block, xt);
    if ok.Err? {
      return Err(ok.error);
    }
    ghost var checked := rpc.log;
    var records :- rpc.EventsWithPhaseAt(block);
    AskedRead(checked, ReadEvents(block, records));
    ClearedReads(before, after, checked, block, xt, records);
    var index := ProposalIndexFor(EventsOf(records), blake(inner));
    if index.None? {
      return Err(NoProposedEvent);
    }
    res := Ok(Open(blake(inner), index.value));
  }

  /** `proposal_index_for`: the first `Proposed` event of this motion. */
  function ProposalIndexFor(events: seq<Event>, hash: Hash32): (r: Option<nat>)
    ensures r.Some? <==> exists e :: e in events && e.Proposed? && e.hash == hash
    ensures r.Some? ==> Proposed(r.value, hash) in events
  {
    if events == [] then None
    else if events[0].Proposed? && events[0].hash == hash then Some(events[0].index)
    else
      assert events == [events[0]] + events[1..];
      ProposalIndexFor(events[1..], hash)
  }

  predicate ProposedHere(e: Event, hash: Hash32) {
    e.Proposed? && e.hash == hash
  }

  lemma {:induction false} ProposalIndexSkips(events: seq<Event>, hash: Hash32, k: nat)
    requires k <= |events| && forall j :: 0 <= j < k ==> !ProposedHere(events[j], hash)
    ensures ProposalIndexFor(events, hash) == ProposalIndexFor(events[k..], hash)
  {
    if k > 0 {
      ProposalIndexSkips(events[1..], hash, k - 1);
      assert events[1..][k - 1..] == events[k..];
    } else {
      assert events[0..] == events;
    }
  }

  /** ... none of this motion before it. */
  lemma ProposalIndexFirst(events: seq<Event>, hash: Hash32, index: nat)
    ensures ProposalIndexFor(events, hash) == Some(index) <==>
            exists i :: 0 <= i < |events| && events[i] == Proposed(index, hash)
                        && forall j :: 0 <= j < i ==> !ProposedHere(events[j], hash)
  {
    var k := 0;
    while k < |events| && !ProposedHere(events[k], hash)
      invariant k <= |events| && forall j :: 0 <= j < k ==> !ProposedHere(events[j], hash)
    {
      k := k + 1;
    }
    ProposalIndexSkips(events, hash, k);
    if i :| 0 <= i < |events| && events[i] == Proposed(index, hash)
            && forall j :: 0 <= j < i ==> !ProposedHere(events[j], hash) {
      ProposalIndexSkips(events, hash, i);
    }
  }

  method VoteMotion(rpc: Rpc, hash: Hash32, index: nat, approve: bool, voter: Account)
    returns (res: Result<Hash32, Error>)
    modifies rpc
    ensures var ask := Ask(Vote(hash, index, approve), voter, false);
            Asked(rpc.log) == Asked(old(rpc.log)) + [ask] || (res.Err? && Asked(rpc.log) == Asked(old(rpc.log)))
    ensures var n := |old(rpc.log)|;
            res.Ok? ==> |rpc.log| > n && rpc.log[n].Submitted? && Watch(rpc.log[n].items, false) == res
                        && Cleared(rpc.log[..n + 1], rpc.log, res.value, rpc.log[n].xt)
    ensures var left := Submits(old(rpc.script), Vote(hash, index, approve), voter, false);
            (res.Ok? <==> left.Some?) && (res.Ok? ==> left == Some(rpc.script))
  {
    hide Asked, Watch, LandsIn, Cleared, Clears;
    var nonce :- rpc.AccountNonce();
    var xt := Xt(Vote(hash, index, approve), voter, nonce);
    ghost var before := rpc.log;
    var landed := rpc.SubmitAndWatch(xt, false);
    ghost var after := rpc.log;
    AskedStep(before, after);
    var block :- landed;
    var ok := AssertExtrinsicOk(rpc, block, xt);
    if ok.Err? {
      return Err(ok.error);
    }
    assert rpc.log[..|before| + 1] == after;
    res := Ok(block);
  }

  datatype CloseOutcome = ClosedApproved | ClosedDisapproved

  method CloseMotion(rpc: Rpc, blake: Bytes -> Hash32, hash: Hash32, index: nat, closer: Account)
    returns (res: Result<CloseOutcome, Error>)
    modifies rpc
    ensures var ask := Ask(Close(hash, index), closer, true);
            Asked(rpc.log) == Asked(old(rpc.log)) + [ask] || (res.Err? && Asked(rpc.log) == Asked(old(rpc.log)))
    ensures res == Ok(ClosedApproved) ==> Delivered(rpc.log, Close(hash, index), hash)
    ensures res == Ok(ClosedDisapproved) ==> Dismissed(rpc.log, Close(hash, index), hash)
    ensures res == Ok(ClosedApproved) <==> Closes(old(rpc.script), blake, hash, index, closer)
    ensures res.Ok? ==> var stored := First(old(rpc.script));
                        stored.Stored? && stored.call.Some? && blake(stored.call.value) == hash
    ensures res.Ok? ==> ClearedThenRead(old(rpc.log), rpc.log)
  {
    hide Asked, Watch, LandsIn, ExecutedOk, Cleared, EventsOf, Clears, Settled, ClearedThenRead;
    var inner :- rpc.ProposalOf(blake, hash);
    if inner.None? {
      return Err(NoProposal);
    }
    var nonce :- rpc.AccountNonce();
    var xt := Xt(Close(hash, index), closer, nonce);
    ghost var before := rpc.log;
    var landed := rpc.SubmitAndWatch(xt, true);
    ghost var after := rpc.log;
    AskedStep(before, after);
    var block :- landed;
    var ok := AssertExtrinsicOk(rpc, block, xt);
    if ok.Err? {
      return Err(ok.error);
    }
    ghost var checked := rpc.log;
    var records :- rpc.EventsWithPhaseAt(block);
    AskedRead(checked, ReadEvents(block, records));
    SubmissionFinalized(before, after, rpc.log, xt.call, block);
    ClearedReads(before, after, checked, block, xt, records);
    res := Verdict(EventsOf(records), hash);
  }

  /** What the events of the close's block say. */
  method Verdict(events: seq<Event>, hash: Hash32) returns (res: Result<CloseOutcome, Error>)
    ensures res == Ok(ClosedApproved) <==> Approved(hash) in events && ExecutedOk(events, Some(hash))
    ensures res == Ok(ClosedDisapproved) <==> Disapproved(hash) in events && Approved(hash) !in events
  {
    hide ExecutedOk;
    if Approved(hash) in events {
      var executed := EnsureExecuted(events, Some(hash));
      if executed.Err? {
        return Err(executed.error);
      }
      res := Ok(ClosedApproved);
    } else if Disapproved(hash) in events {
      res := Ok(ClosedDisapproved);
    } else {
      res := Err(Unresolved);
    }
  }

  // ---------- via_committee ----------

  ghost function Votes(hash: Hash32, index: nat, voters: seq<Account>): seq<Ask> {
    if voters == [] then []
    else Votes(hash, index, voters[..|voters| - 1]) + [Ask(Vote(hash, index, true), voters[|voters| - 1], false)]
  }

  /** The whole plan: propose; then, unless that executed, one aye per voter and a close. */
  ghost function Plan(hash: Hash32, inner: Bytes, voters: seq<Account>, closer: Account, index: nat): seq<Ask>
    requires voters != []
  {
    [Ask(Propose(|voters|, inner), voters[0], |voters| == 1)]
    + if |voters| == 1 then [] else Votes(hash, index, voters) + [Ask(Close(hash, index), closer, true)]
  }

  function Take(signers: seq<Account>, indices: seq<nat>, n: nat): (r: seq<Account>)
    requires n <= |indices| && forall i :: 0 <= i < |indices| ==> indices[i] < |signers|
    ensures |r| == n && forall i :: 0 <= i < n ==> r[i] == signers[indices[i]]
  {
    if n == 0 then [] else Take(signers, indices, n - 1) + [signers[indices[n - 1]]]
  }

  /** The voting loop: every voter's aye in turn, up to the first that fails. */
  method CastVotes(rpc: Rpc, hash: Hash32, index: nat, voters: seq<Account>)
    returns (res: Result<(), Error>, ghost cast: nat)
    modifies rpc
    ensures cast <= |voters| && Asked(rpc.log) == Asked(old(rpc.log)) + Votes(hash, index, voters[..cast])
    ensures res.Ok? ==> cast == |voters|
    ensures var left := Passes(old(rpc.script), hash, index, voters);
            (res.Ok? <==> left.Some?) && (res.Ok? ==> left == Some(rpc.script))
  {
    hide Asked, Votes, Passes, Submits, Cleared, Watch;
    NonePass(rpc.script, hash, index, voters);
    NoVotes(hash, index, voters);
    for k := 0 to |voters|
      invariant Asked(rpc.log) == Asked(old(rpc.log)) + Votes(hash, index, voters[..k])
      invariant Passes(old(rpc.script), hash, index, voters[..k]) == Some(rpc.script)
    {
      PassesNext(old(rpc.script), hash, index, voters, k);
      VotesSnoc(hash, index, voters, k);
      var vote := VoteMotion(rpc, hash, index, true, voters[k]);
      if vote.Err? {
        ghost var asked := Asked(old(rpc.log)) + Votes(hash, index, voters[..k]);
        return Err(vote.error), if Asked(rpc.log) == asked then k else k + 1;
      }
    }
    assert voters[..|voters|] == voters;
    return Ok(()), |voters|;
  }

  lemma VotesSnoc(hash: Hash32, index: nat, voters: seq<Account>, k: nat)
    requires k < |voters|
    ensures Votes(hash, index, voters[..k + 1])
         == Votes(hash, index, voters[..k]) + [Ask(Vote(hash, index, true), voters[k], false)]
  {
    assert voters[..k + 1][..k] == voters[..k];
  }

  /** No false success. On either path `Ok` means the motion was delivered, and then exactly the plan was asked for;
      a failure leaves a prefix of it. */
  method ViaCommittee(rpc: Rpc, blake: Bytes -> Hash32, inner: Bytes, signers: seq<Account>, r: Resolved)
    returns (res: Result<(), Error>, ghost index: nat)
    requires r.threshold >= 1 && forall i :: 0 <= i < |r.eligible| ==> r.eligible[i] < |signers|
    modifies rpc
    ensures |r.eligible| < r.threshold ==> res == Err(TooFewVoters) && rpc.log == old(rpc.log)
    ensures res.Ok? ==>
              var last := if r.threshold == 1 then Propose(1, inner) else Close(blake(inner), index);
              Delivered(rpc.log, last, blake(inner))
    ensures |r.eligible| >= r.threshold ==>
              var voters, closer := Take(signers, r.eligible, r.threshold), signers[r.eligible[|r.eligible| - 1]];
              Follows(Asked(old(rpc.log)), Plan(blake(inner), inner, voters, closer, index), Asked(rpc.log), res.Ok?)
    ensures |r.eligible| >= r.threshold ==>
              var voters, closer := Take(signers, r.eligible, r.threshold), signers[r.eligible[|r.eligible| - 1]];
              res.Ok? <==> Succeeds(old(rpc.script), blake, inner, voters, closer)
  {
    hide Asked, Delivered, Votes, Plan, Follows, Submits, Opens, Closes, Executes, Passes, Dismissed;
    index := 0;
    if |r.eligible| < r.threshold {
      return Err(TooFewVoters), 0;
    }
    var voters := Take(signers, r.eligible, r.threshold);
    var closer := signers[r.eligible[|r.eligible| - 1]];
    ghost var asked := Asked(rpc.log);
    var outcome := ProposeMotion(rpc, blake, inner, voters[0], r.threshold);
    OpeningFollows(asked, blake(inner), inner, voters, closer, index);
    if outcome.Err? {
      return Err(outcome.error), index;
    }
    if outcome.value.ExecutedOnPropose? {
      return Ok(()), index;
    }
    index := outcome.value.index;
    var hash := outcome.value.hash;
    var at := outcome.value.index;
    var voted, cast := CastVotes(rpc, hash, at, voters);
    CastFollows(asked, hash, inner, voters, closer, index, cast);
    if voted.Err? {
      return Err(voted.error), index;
    }
    var closed := CloseMotion(rpc, blake, hash, at, closer);
    if closed.Err? {
      return Err(closed.error), index;
    }
    if closed.value.ClosedDisapproved? {
      return Err(MotionDisapproved), index;
    }
    res := Ok(());
  }

  /** The responses left when every voter's aye lands, if they all do. */
  function Passes(script: seq<Answer>, hash: Hash32, index: nat, voters: seq<Account>): Option<seq<Answer>> {
    if voters == [] then Some(script) else
    var left := Passes(script, hash, index, voters[..|voters| - 1]);
    if left.None? then None else Submits(left.value, Vote(hash, index, true), voters[|voters| - 1], false)
  }

  /** The sequences of responses under which the whole drive succeeds. */
  predicate Succeeds(script: seq<Answer>, blake: Bytes -> Hash32, inner: Bytes, voters: seq<Account>, closer: Account)
    requires voters != []
  {
    if |voters| == 1 then Executes(script, blake(inner)) else
    var begun := Opens(script, blake(inner), inner, voters[0], |voters|);
    begun.Some?
    && var passed := Passes(begun.value.1, blake(inner), begun.value.0, voters);
       passed.Some? && Closes(passed.value, blake, blake(inner), begun.value.0, closer)
  }

  lemma NonePass(script: seq<Answer>, hash: Hash32, index: nat, voters: seq<Account>)
    ensures Passes(script, hash, index, voters[..0]) == Some(script)
  {
  }

  /** One more aye, and what its failure means for the rest. */
  lemma PassesNext(script: seq<Answer>, hash: Hash32, index: nat, voters: seq<Account>, k: nat)
    requires k < |voters| && Passes(script, hash, index, voters[..k]).Some?
    ensures Passes(script, hash, index, voters[..k + 1])
         == Submits(Passes(script, hash, index, voters[..k]).value, Vote(hash, index, true), voters[k], false)
    ensures Passes(script, hash, index, voters[..k + 1]).None? ==> Passes(script, hash, index, voters).None?
  {
    hide Submits;
    assert voters[..k + 1][..k] == voters[..k];
    assert voters[..k + 1][k] == voters[k];
    if Passes(script, hash, index, voters[..k + 1]).None? {
      PassesStops(script, hash, index, voters, k + 1);
    }
  }

  lemma {:induction false} PassesStops(script: seq<Answer>, hash: Hash32, index: nat, voters: seq<Account>, k: nat)
    requires k <= |voters| && Passes(script, hash, index, voters[..k]).None?
    ensures Passes(script, hash, index, voters).None?
    decreases |voters|
  {
    hide Submits;
    if k == |voters| {
      assert voters[..k] == voters;
    } else {
      assert voters[..|voters| - 1][..k] == voters[..k];
      PassesStops(script, hash, index, voters[..|voters| - 1], k);
    }
  }

  /** Exactly the plan on success, a prefix of it otherwise. */
  ghost predicate Follows(before: seq<Ask>, plan: seq<Ask>, now: seq<Ask>, whole: bool) {
    before <= now <= before + plan && (whole ==> now == before + plan)
  }

  lemma {:induction false} VotesPrefix(hash: Hash32, index: nat, voters: seq<Account>, k: nat)
    requires k <= |voters|
    ensures Votes(hash, index, voters[..k]) <= Votes(hash, index, voters)
    decreases |voters|
  {
    if k == |voters| {
      assert voters[..k] == voters;
    } else {
      var front := voters[..|voters| - 1];
      VotesPrefix(hash, index, front, k);
      assert front[..k] == voters[..k];
    }
  }

  ghost function Opening(inner: Bytes, voters: seq<Account>): Ask
    requires voters != []
  {
    Ask(Propose(|voters|, inner), voters[0], |voters| == 1)
  }

  /** Nothing asked, or only the proposal: a prefix of the plan, the whole of it for a sole voter. */
  lemma OpeningFollows(before: seq<Ask>, hash: Hash32, inner: Bytes, voters: seq<Account>, closer: Account, index: nat)
    requires voters != []
    ensures var plan := Plan(hash, inner, voters, closer, index);
            Follows(before, plan, before, false)
            && Follows(before, plan, before + [Opening(inner, voters)], false)
            && (|voters| == 1 ==> Follows(before, plan, before + [Opening(inner, voters)], true))
  {
    hide Votes;
    var plan := Plan(hash, inner, voters, closer, index);
    assert plan == [Opening(inner, voters)] + plan[1..];
    assert before + plan == before + [Opening(inner, voters)] + plan[1..];
  }

  /** Some of the ayes asked for as well, then the close. */
  lemma CastFollows(before: seq<Ask>, hash: Hash32, inner: Bytes, voters: seq<Account>, closer: Account, index: nat,
                    cast: nat)
    requires |voters| > 1 && cast <= |voters|
    ensures var plan := Plan(hash, inner, voters, closer, index);
            var asked := before + [Opening(inner, voters)] + Votes(hash, index, voters[..cast]);
            var closed := asked + [Ask(Close(hash, index), closer, true)];
            Follows(before, plan, asked, false)
            && (cast == |voters| ==> Follows(before, plan, closed, false) && Follows(before, plan, closed, true))
  {
    hide Votes;
    VotesPrefix(hash, index, voters, cast);
    var start, close := [Opening(inner, voters)], [Ask(Close(hash, index), closer, true)];
    var votes, some := Votes(hash, index, voters), Votes(hash, index, voters[..cast]);
    assert votes == some + votes[|some|..];
    assert before + (start + (votes + close)) == before + start + some + (votes[|some|..] + close);
    if cast == |voters| {
      assert voters[..cast] == voters;
      assert before + start + votes + close == before + (start + (votes + close));
    }
  }

  lemma NoVotes(hash: Hash32, index: nat, voters: seq<Account>)
    ensures Votes(hash, index, voters[..0]) == []
  {
  }

  /** The ayes of a plan for a resolved committee come from `threshold` distinct members, enough for 3/5. */
  lemma PlanCarries(onchain: seq<Account>, signers: seq<Account>, r: Resolved)
    requires onchain != [] && 3 * |onchain| <= 5 * (U32_LIMIT - 1)
    requires IsEligible(onchain, signers, r.eligible) && ThresholdFor(|onchain|) <= r.threshold <= |r.eligible|
    ensures var voters := Take(signers, r.eligible, r.threshold);
            Distinct(voters) && Seats(voters) <= Seats(onchain) && Carries(|Seats(voters)|, |onchain|)
  {
    var voters := Take(signers, r.eligible, r.threshold);
    VotersCarry(onchain, signers, r);
    assert Seats(voters) == Chosen(signers, r.eligible[..r.threshold]);
    SeatsBound(voters);
  }
}
