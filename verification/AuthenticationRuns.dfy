/** What the calls of a run are told: which credential is current, when a refresh starts, what its end means for
    the calls that wait, and that an answer once decided stays. */
module AuthenticationRuns {
  import opened Words
  import opened AuthenticationModel

  // ---- the credential ---------------------------------------------------------------------------

  /** The credential last set, or last brought by a refresh. */
  function LastCredential(first: Option<Credential>, events: seq<Event>): Option<Credential>
    decreases |events|
  {
    if events == [] then first
    else
      var before, last := events[..|events| - 1], events[|events| - 1];
      if last.SetCredential? then last.value
      else if last.CompleteRefresh? && last.result.Some? then last.result
      else LastCredential(first, before)
  }

  /** One event. */
  lemma CredentialStep(s: State, e: Event)
    requires Enabled(s, e)
    ensures Next(s, e).credential
         == match e
            case SetCredential(value) => value
            case CompleteRefresh(result, _) => if result.Some? then result else s.credential
            case _ => s.credential
  {
    hide IsRefreshExcessive;
  }

  lemma {:induction false} LastOfTail(first: Option<Credential>, e: Event, events: seq<Event>)
    ensures LastCredential(first, [e] + events) == LastCredential(LastCredential(first, [e]), events)
    decreases |events|
  {
    if events != [] {
      var n := |events| - 1;
      assert ([e] + events)[..n + 1] == [e] + events[..n];
      LastOfTail(first, e, events[..n]);
    } else {
      assert [e] + [] == [e];
    }
  }

  /** After every run the credential is the last one. */
  lemma {:induction false} CredentialIsLast(s: State, events: seq<Event>)
    requires Runs(s, events)
    ensures After(s, events).credential == LastCredential(s.credential, events)
    decreases |events|
  {
    hide Enabled, Next;
    if events != [] {
      var e, rest := events[0], events[1..];
      assert events == [e] + rest && [e][..0] == [];
      CredentialStep(s, e);
      CredentialIsLast(Next(s, e), rest);
      LastOfTail(s.credential, e, rest);
    }
  }

  // ---- the run of a queued block ----------------------------------------------------------------

  /** Readings in the order of the clock. */
  predicate Forward(now: Time, readings: seq<Reading>)
    decreases |readings|
  {
    readings == []
    || (now <= readings[0].check <= readings[0].stamp && Forward(readings[0].stamp, readings[1..]))
  }

  predicate Adapts(s: State) {
    s.queue != [] && s.queue[0].ResumeAll? && s.queue[0].adapts != []
  }

  /** The steps of the serial queue that deal with one call each; an adapt call takes two. */
  function CallEvents(s: State, r: Reading): seq<Event> {
    [RunQueue(r.stale, r.check, r.stamp)] + if Adapts(s) then [RunQueue(r.stale, r.stamp, r.stamp)] else []
  }

  function BlockEvents(s: State, readings: seq<Reading>): seq<Event>
    decreases |readings|
  {
    if readings == [] || s.queue == [] then []
    else CallEvents(s, readings[0]) + BlockEvents(RunCall(s, readings[0]).(now := readings[0].stamp), readings[1..])
  }

  lemma AdaptIgnoresClock(s: State, id: Id, stale: bool, check: Time, stamp: Time, now: Time)
    ensures var (t, answer) := AdaptInsideLock(s, id, stale, check, stamp);
            AdaptInsideLock(s.(now := now), id, stale, check, stamp) == (t.(now := now), answer)
  {
  }

  lemma HeadIgnoresClock(s: State, stale: bool, check: Time, stamp: Time, now: Time)
    requires s.queue != []
    ensures RunHead(s.(now := now), stale, check, stamp) == RunHead(s, stale, check, stamp).(now := now)
  {
    hide AdaptInsideLock;
    if Adapts(s) {
      var b := ResumeAll(s.queue[0].adapts[1..], s.queue[0].retries);
      AdaptIgnoresClock(s.(queue := [b] + s.queue[1..]), s.queue[0].adapts[0], stale, check, stamp, now);
    }
  }

  lemma CallIgnoresClock(s: State, r: Reading, now: Time)
    requires s.queue != []
    ensures RunCall(s.(now := now), r) == RunCall(s, r).(now := now)
  {
    hide RunHead, AdaptInsideLock;
    HeadIgnoresClock(s, r.stale, r.check, r.stamp, now);
    var t := RunHead(s, r.stale, r.check, r.stamp);
    if Adapts(s) {
      FinishQueued(s, r.stale, r.check, r.stamp);
      HeadIgnoresClock(t, r.stale, r.check, r.stamp, now);
    }
  }

  lemma FinishQueued(s: State, stale: bool, check: Time, stamp: Time)
    requires Adapts(s)
    ensures var t := RunHead(s, stale, check, stamp);
            t.queue != [] && t.queue[0].Finish?
  {
  }

  lemma {:induction false} EachIgnoresClock(s: State, readings: seq<Reading>, now: Time)
    ensures RunEach(s.(now := now), readings) == RunEach(s, readings).(now := now)
    decreases |readings|
  {
    hide RunCall;
    if readings != [] && s.queue != [] {
      CallIgnoresClock(s, readings[0], now);
      EachIgnoresClock(RunCall(s, readings[0]), readings[1..], now);
    }
  }

  lemma {:induction false} RunsInARow(s: State, first: seq<Event>, more: seq<Event>)
    requires Runs(s, first) && Runs(After(s, first), more)
    ensures Runs(s, first + more) && After(s, first + more) == After(After(s, first), more)
    decreases |first|
  {
    hide Enabled, Next;
    if first == [] {
      assert [] + more == more;
    } else {
      assert (first + more)[1..] == first[1..] + more && (first + more)[0] == first[0];
      RunsInARow(Next(s, first[0]), first[1..], more);
    }
  }

  lemma OneStep(s: State, e: Event)
    requires Enabled(s, e)
    ensures Runs(s, [e]) && After(s, [e]) == Next(s, e)
  {
    hide Enabled, Next;
    assert [e][1..] == [];
  }

  lemma TwoSteps(s: State, e: Event, e': Event)
    requires Enabled(s, e) && Enabled(Next(s, e), e')
    ensures Runs(s, [e] + [e']) && After(s, [e] + [e']) == Next(Next(s, e), e')
  {
    hide Enabled, Next;
    OneStep(s, e);
    OneStep(Next(s, e), e');
    RunsInARow(s, [e], [e']);
  }

  lemma CallIsRun(s: State, r: Reading)
    requires s.queue != [] && s.now <= r.check <= r.stamp
    ensures Runs(s, CallEvents(s, r)) && After(s, CallEvents(s, r)) == RunCall(s, r).(now := r.stamp)
  {
    hide RunHead, AdaptInsideLock, Runs, After;
    var e := RunQueue(r.stale, r.check, r.stamp);
    var t := RunHead(s, r.stale, r.check, r.stamp);
    if Adapts(s) {
      FinishQueued(s, r.stale, r.check, r.stamp);
      HeadIgnoresClock(t, r.stale, r.stamp, r.stamp, r.stamp);
      FinishIgnoresReading(t, r);
      TwoSteps(s, e, RunQueue(r.stale, r.stamp, r.stamp));
    } else {
      OneStep(s, e);
      assert [e] + [] == [e];
    }
  }

  lemma FinishIgnoresReading(s: State, r: Reading)
    requires s.queue != [] && s.queue[0].Finish?
    ensures RunHead(s, r.stale, r.stamp, r.stamp) == RunHead(s, r.stale, r.check, r.stamp)
  {
  }

  /** Running each call of the queue's blocks is a run of the interceptor. */
  lemma {:induction false} EachIsRun(s: State, readings: seq<Reading>)
    requires Forward(s.now, readings)
    ensures Runs(s, BlockEvents(s, readings))
    ensures var u := After(s, BlockEvents(s, readings));
            u == RunEach(s, readings).(now := u.now)
    decreases |readings|
  {
    hide RunCall, Enabled, Next, CallEvents;
    if readings != [] && s.queue != [] {
      var r := readings[0];
      var t := RunCall(s, r).(now := r.stamp);
      CallIsRun(s, r);
      EachIsRun(t, readings[1..]);
      RunsInARow(s, CallEvents(s, r), BlockEvents(t, readings[1..]));
      EachIgnoresClock(RunCall(s, r), readings[1..], r.stamp);
    }
  }

  // ---- the end of a refresh -----------------------------------------------------------------------

  /** A refresh succeeds while nothing else is queued, and its block runs with the new credential still fresh: every
      waiting adapt is given the new credential and every waiting retry is told to retry, in order. */
  lemma RefreshBrings(s: State, c: Credential, code: int, readings: seq<Reading>)
    requires s.outstanding > 0 && s.queue == []
    requires |readings| == |s.adaptOperations| + |s.requestsToRetry| + 1 && Forward(s.now, readings)
    requires forall i :: 0 <= i < |s.adaptOperations| ==> !readings[i].stale
    ensures var t := Next(s, CompleteRefresh(Some(c), code));
            var events := BlockEvents(t, readings);
            && Runs(t, events)
            && var u := After(t, events);
               && u.delivered
                    == s.delivered + Answers(s.adaptOperations, Adapted(c)) + Answers(s.requestsToRetry, Retry)
               && u.credential == Some(c)
               && !u.isRefreshing && u.adaptOperations == [] && u.requestsToRetry == [] && u.queue == []
  {
    hide RunEach, AdaptEach, Answers, BlockEvents, RunHead, AdaptInsideLock, Runs, After;
    var adapts, retries := s.adaptOperations, s.requestsToRetry;
    var t := Next(s, CompleteRefresh(Some(c), code));
    assert t.queue == [ResumeAll(adapts, retries)] + [];
    EachIsRun(t, readings);
    ResumeAllDrains(t, adapts, retries, [], readings);
    AdaptsSettle(t.(queue := []), adapts, readings);
  }

  /** A refresh fails: every waiting call is given its error, in order, and the credential stays. */
  lemma RefreshFails(s: State, code: int, readings: seq<Reading>)
    requires s.outstanding > 0 && s.queue == []
    requires |readings| == |s.adaptOperations| + |s.requestsToRetry| + 1 && Forward(s.now, readings)
    ensures var t := Next(s, CompleteRefresh(None, code));
            var events := BlockEvents(t, readings);
            && Runs(t, events)
            && var u := After(t, events);
               && u.delivered
                    == s.delivered + Answers(s.adaptOperations, NotAdapted(RefreshFailed(code)))
                         + Answers(s.requestsToRetry, DoNotRetryWithError(RefreshFailed(code)))
               && u.credential == s.credential
               && !u.isRefreshing && u.adaptOperations == [] && u.requestsToRetry == [] && u.queue == []
  {
    hide RunEach, Answers, BlockEvents, RunHead, AdaptInsideLock, Runs, After;
    var adapts, retries := s.adaptOperations, s.requestsToRetry;
    var t := Next(s, CompleteRefresh(None, code));
    assert t.queue == [FailAll(adapts, retries, RefreshFailed(code))] + [];
    EachIsRun(t, readings);
    FailAllDrains(t, adapts, retries, RefreshFailed(code), [], readings);
  }

  // ---- when a refresh starts ----------------------------------------------------------------------

  /** The clock never goes back, so every recorded start lies in the past. */
  predicate StartsPast(s: State) {
    forall i :: 0 <= i < |s.refreshTimestamps| ==> s.refreshTimestamps[i] <= s.now
  }

  lemma AdaptStampsLater(s: State, id: Id, stale: bool, check: Time, stamp: Time)
    requires StartsPast(s) && s.now <= stamp
    ensures StartsPast(AdaptInsideLock(s, id, stale, check, stamp).0.(now := stamp))
  {
    hide IsRefreshExcessive;
  }

  lemma StartsPastKept(s: State, e: Event)
    requires StartsPast(s) && Enabled(s, e)
    ensures StartsPast(Next(s, e))
  {
    hide AdaptInsideLock, IsRefreshExcessive;
    match e
    case CallAdapt(id, stale, check, stamp) =>
      AdaptStampsLater(s.(issued := s.issued + {id}), id, stale, check, stamp);
    case RunQueue(stale, check, stamp) =>
      if Adapts(s) {
        var b := ResumeAll(s.queue[0].adapts[1..], s.queue[0].retries);
        AdaptStampsLater(s.(queue := [b] + s.queue[1..]), s.queue[0].adapts[0], stale, check, stamp);
      }
    case _ =>
  }

  lemma {:induction false} StartsPastAlways(s: State, events: seq<Event>)
    requires StartsPast(s) && Runs(s, events)
    ensures StartsPast(After(s, events))
    decreases |events|
  {
    hide Enabled, Next, StartsPast;
    if events != [] {
      StartsPastKept(s, events[0]);
      StartsPastAlways(Next(s, events[0]), events[1..]);
    }
  }

  /** The starts recorded from `from` to `to`, by their positions. */
  ghost function StartsWithin(stamps: seq<Time>, from: Time, to: Time): set<nat> {
    set i: nat | i < |stamps| && from <= stamps[i] <= to
  }

  lemma {:induction false} AttemptsAppend(stamps: seq<Time>, stamp: Time, min: Time)
    ensures AttemptsSince(stamps + [stamp], min) == AttemptsSince(stamps, min) + if min <= stamp then 1 else 0
  {
    if stamps == [] {
      assert stamps + [stamp] == [stamp];
    } else {
      assert (stamps + [stamp])[1..] == stamps[1..] + [stamp];
      AttemptsAppend(stamps[1..], stamp, min);
    }
  }

  lemma {:induction false} AttemptsAreStarts(stamps: seq<Time>, min: Time, to: Time)
    requires forall i :: 0 <= i < |stamps| ==> stamps[i] <= to
    ensures AttemptsSince(stamps, min) == |StartsWithin(stamps, min, to)|
    decreases |stamps|
  {
    if stamps == [] {
      assert StartsWithin(stamps, min, to) == {};
    } else {
      var n := |stamps| - 1;
      var before := stamps[..n];
      AttemptsAreStarts(before, min, to);
      AttemptsAppend(before, stamps[n], min);
      assert stamps == before + [stamps[n]];
      assert StartsWithin(stamps, min, to)
          == StartsWithin(before, min, to) + if min <= stamps[n] then {n as nat} else {};
    }
  }

  /** Fewer starts than the window allows, in the window that ends now. */
  ghost predicate MayStart(s: State, check: Time) {
    s.refreshWindow.None?
    || |StartsWithin(s.refreshTimestamps, check - s.refreshWindow.value.interval, check)|
         < s.refreshWindow.value.maximumAttempts
  }

  lemma ExcessiveIsFull(s: State, check: Time)
    requires StartsPast(s) && s.now <= check
    ensures IsRefreshExcessive(s, check) <==> !MayStart(s, check)
  {
    if s.refreshWindow.Some? {
      AttemptsAreStarts(s.refreshTimestamps, check - s.refreshWindow.value.interval, check);
    }
  }

  /** A retry that reaches the lock waits for the refresh under way. If there is none it starts one, with the
      credential it read, exactly when the window has room; otherwise it fails, together with all that waits. */
  lemma RetryAtLock(s: State, k: nat, check: Time, stamp: Time)
    requires StartsPast(s) && Enabled(s, LockRetry(k, check, stamp))
    ensures var t, waiting := Next(s, LockRetry(k, check, stamp)), s.requestsToRetry + [s.arriving[k].0];
            var u := s.(arriving := s.arriving[..k] + s.arriving[k + 1..], now := stamp);
            t == if s.isRefreshing then u.(requestsToRetry := waiting)
                 else if MayStart(s, check) then
                   u.(requestsToRetry := waiting, isRefreshing := true,
                      refreshTimestamps := s.refreshTimestamps + [stamp],
                      queue := s.queue + [StartRefresh(s.arriving[k].1)])
                 else
                   u.(adaptOperations := [], requestsToRetry := [],
                      queue := s.queue + [FailAll(s.adaptOperations, waiting, ExcessiveRefresh)])
  {
    hide IsRefreshExcessive, MayStart;
    ExcessiveIsFull(s, check);
    var s' := s.(arriving := Remove(s.arriving, k), requestsToRetry := s.requestsToRetry + [s.arriving[k].0]);
    SameWindow(s, s', check);
  }

  /** A call of adapt waits for the refresh under way; without a credential it is refused; with a fresh one it is
      given that. With a stale one it starts a refresh exactly when the window has room, and waits for it;
      otherwise it fails, together with all that waits. */
  lemma AdaptAtLock(s: State, id: Id, stale: bool, check: Time, stamp: Time)
    requires StartsPast(s) && Enabled(s, CallAdapt(id, stale, check, stamp))
    ensures var t, waiting := Next(s, CallAdapt(id, stale, check, stamp)), s.adaptOperations + [id];
            var u := s.(issued := s.issued + {id}, now := stamp);
            t == if s.isRefreshing then u.(adaptOperations := waiting)
                 else if s.credential.None? then
                   u.(returning := s.returning + [(id, NotAdapted(MissingCredential))])
                 else if !stale then u.(returning := s.returning + [(id, Adapted(s.credential.value))])
                 else if MayStart(s, check) then
                   u.(adaptOperations := waiting, isRefreshing := true,
                      refreshTimestamps := s.refreshTimestamps + [stamp],
                      queue := s.queue + [StartRefresh(s.credential.value)])
                 else
                   u.(adaptOperations := [], requestsToRetry := [],
                      queue := s.queue + [FailAll(waiting, s.requestsToRetry, ExcessiveRefresh)])
  {
    hide IsRefreshExcessive, MayStart;
    ExcessiveIsFull(s, check);
    SameWindow(s, s.(issued := s.issued + {id}, adaptOperations := s.adaptOperations + [id]), check);
  }

  // ---- answers stay -------------------------------------------------------------------------------

  type Calls = seq<(Id, Outcome)>

  /** The answers decided for adapts that a block resumed. */
  function Decided(queue: seq<Block>): multiset<(Id, Outcome)> {
    if queue == [] then multiset{}
    else
      (if queue[0].Finish? && queue[0].answer.Some? then multiset{(queue[0].id, queue[0].answer.value)} else multiset{})
      + Decided(queue[1..])
  }

  /** The answers decided so far: delivered, owed by calls that left the lock, or next in a block. */
  function Answered(delivered: Calls, returning: Calls, queue: seq<Block>): multiset<(Id, Outcome)> {
    multiset(delivered) + multiset(returning) + Decided(queue)
  }

  function AnsweredIn(s: State): multiset<(Id, Outcome)> { Answered(s.delivered, s.returning, s.queue) }

  lemma {:induction false} DecidedAppend(queue: seq<Block>, b: Block)
    requires !b.Finish?
    ensures Decided(queue + [b]) == Decided(queue)
  {
    if queue == [] {
      assert queue + [b] == [b];
    } else {
      assert (queue + [b])[1..] == queue[1..] + [b];
      DecidedAppend(queue[1..], b);
    }
  }

  lemma BlockAppended(d: Calls, r: Calls, queue: seq<Block>, b: Block)
    requires !b.Finish?
    ensures Answered(d, r, queue + [b]) == Answered(d, r, queue)
  {
    DecidedAppend(queue, b);
  }

  lemma BlockAtHead(d: Calls, r: Calls, b: Block, queue: seq<Block>)
    requires b.Finish? ==> b.answer.None?
    ensures Answered(d, r, [b] + queue) == Answered(d, r, queue)
  {
    assert ([b] + queue)[1..] == queue;
  }

  lemma FinishAtHead(d: Calls, r: Calls, id: Id, answer: Outcome, queue: seq<Block>)
    ensures Answered(d, r, [Finish(id, Some(answer))] + queue) == Answered(d + [(id, answer)], r, queue)
  {
    assert ([Finish(id, Some(answer))] + queue)[1..] == queue;
  }

  lemma OneMoreDelivered(d: Calls, r: Calls, queue: seq<Block>, call: (Id, Outcome))
    ensures Answered(d, r, queue) <= Answered(d + [call], r, queue)
  {
  }

  lemma OneMoreOwed(d: Calls, r: Calls, queue: seq<Block>, call: (Id, Outcome))
    ensures Answered(d, r, queue) <= Answered(d, r + [call], queue)
  {
  }

  lemma OwedIsDelivered(d: Calls, r: Calls, queue: seq<Block>, k: nat)
    requires k < |r|
    ensures Answered(d + [r[k]], Remove(r, k), queue) == Answered(d, r, queue)
  {
    assert r == r[..k] + [r[k]] + r[k + 1..];
    assert multiset(r) == multiset(Remove(r, k)) + multiset{r[k]};
  }

  lemma LockAnswers(s: State, id: Id, stale: bool, check: Time, stamp: Time)
    ensures var t := AdaptInsideLock(s, id, stale, check, stamp).0;
            AnsweredIn(t) == AnsweredIn(s) && t.delivered == s.delivered && t.returning == s.returning
  {
    hide IsRefreshExcessive, Answered;
    BlockAppended(s.delivered, s.returning, s.queue,
                  FailAll(s.adaptOperations + [id], s.requestsToRetry, ExcessiveRefresh));
    if s.credential.Some? {
      BlockAppended(s.delivered, s.returning, s.queue, StartRefresh(s.credential.value));
    }
  }

  lemma ResumedAnswers(s: State, stale: bool, check: Time, stamp: Time)
    requires Adapts(s)
    ensures var t := RunHead(s, stale, check, stamp);
            AnsweredIn(s) <= AnsweredIn(t) && t.delivered == s.delivered
  {
    hide AdaptInsideLock, Answered;
    var d, r, head, rest := s.delivered, s.returning, s.queue[0], s.queue[1..];
    var b := ResumeAll(head.adapts[1..], head.retries);
    assert s.queue == [head] + rest;
    BlockAtHead(d, r, head, rest);
    BlockAtHead(d, r, b, rest);
    LockAnswers(s.(queue := [b] + rest), head.adapts[0], stale, check, stamp);
    var (t, answer) := AdaptInsideLock(s.(queue := [b] + rest), head.adapts[0], stale, check, stamp);
    if answer.Some? {
      FinishAtHead(d, r, head.adapts[0], answer.value, t.queue);
      OneMoreDelivered(d, r, t.queue, (head.adapts[0], answer.value));
    } else {
      BlockAtHead(d, r, Finish(head.adapts[0], None), t.queue);
    }
  }

  lemma HeadAnswers(s: State, stale: bool, check: Time, stamp: Time)
    requires s.queue != []
    ensures var t := RunHead(s, stale, check, stamp);
            AnsweredIn(s) <= AnsweredIn(t) && s.delivered <= t.delivered
  {
    hide AdaptInsideLock, Answered;
    var d, r, b, rest := s.delivered, s.returning, s.queue[0], s.queue[1..];
    assert s.queue == [b] + rest;
    match b
    case StartRefresh(_) => BlockAtHead(d, r, b, rest);
    case Finish(id, answer) =>
      if answer.Some? {
        FinishAtHead(d, r, id, answer.value, rest);
      } else {
        BlockAtHead(d, r, b, rest);
      }
    case ResumeAll(adapts, retries) =>
      BlockAtHead(d, r, b, rest);
      if adapts != [] {
        ResumedAnswers(s, stale, check, stamp);
      } else if retries != [] {
        OneMoreDelivered(d, r, rest, (retries[0], Retry));
        BlockAtHead(d + [(retries[0], Retry)], r, ResumeAll([], retries[1..]), rest);
      }
    case FailAll(adapts, retries, error) =>
      BlockAtHead(d, r, b, rest);
      if adapts != [] {
        OneMoreDelivered(d, r, rest, (adapts[0], NotAdapted(error)));
        BlockAtHead(d + [(adapts[0], NotAdapted(error))], r, FailAll(adapts[1..], retries, error), rest);
      } else if retries != [] {
        OneMoreDelivered(d, r, rest, (retries[0], DoNotRetryWithError(error)));
        BlockAtHead(d + [(retries[0], DoNotRetryWithError(error))], r, FailAll([], retries[1..], error), rest);
      }
  }

  lemma CallAnswers(s: State, id: Id, stale: bool, check: Time, stamp: Time)
    ensures var t := Adapt(s, id, stale, check, stamp);
            AnsweredIn(s) <= AnsweredIn(t) && t.delivered == s.delivered
  {
    hide AdaptInsideLock, Answered;
    LockAnswers(s, id, stale, check, stamp);
    var (t, answer) := AdaptInsideLock(s, id, stale, check, stamp);
    if answer.Some? {
      OneMoreOwed(t.delivered, t.returning, t.queue, (id, answer.value));
    }
  }

  lemma RefreshAnswers(s: State, credential: Credential, check: Time, stamp: Time)
    ensures var t := Refresh(s, credential, check, stamp);
            AnsweredIn(t) == AnsweredIn(s) && t.delivered == s.delivered
  {
    hide IsRefreshExcessive, Answered;
    BlockAppended(s.delivered, s.returning, s.queue, StartRefresh(credential));
    BlockAppended(s.delivered, s.returning, s.queue, FailAll(s.adaptOperations, s.requestsToRetry, ExcessiveRefresh));
  }

  lemma EndAnswers(s: State, result: Option<Credential>, code: int)
    requires s.outstanding > 0
    ensures var t := Next(s, CompleteRefresh(result, code));
            AnsweredIn(t) == AnsweredIn(s) && t.delivered == s.delivered
  {
    hide Answered;
    BlockAppended(s.delivered, s.returning, s.queue, ResumeAll(s.adaptOperations, s.requestsToRetry));
    var failed := FailAll(s.adaptOperations, s.requestsToRetry, RefreshFailed(code));
    BlockAppended(s.delivered, s.returning, s.queue, failed);
  }

  lemma RetryAnswers(s: State, id: Id, authError: bool, current: bool)
    requires id !in s.issued
    ensures var t := Next(s, CallRetry(id, authError, current));
            AnsweredIn(s) <= AnsweredIn(t) && t.delivered == s.delivered
  {
    hide Answered;
    OneMoreOwed(s.delivered, s.returning, s.queue, (id, DoNotRetry));
    OneMoreOwed(s.delivered, s.returning, s.queue, (id, DoNotRetryWithError(MissingCredential)));
    OneMoreOwed(s.delivered, s.returning, s.queue, (id, Retry));
  }

  /** An answer once decided stays, with its call, until it is delivered and after. */
  lemma AnswersStay(s: State, e: Event)
    requires Enabled(s, e)
    ensures AnsweredIn(s) <= AnsweredIn(Next(s, e)) && s.delivered <= Next(s, e).delivered
  {
    hide RunHead, AdaptInsideLock, Adapt, Refresh, HandleRefreshSuccess, HandleRefreshFailure, Answered;
    match e
    case CallAdapt(id, stale, check, stamp) => CallAnswers(s.(issued := s.issued + {id}), id, stale, check, stamp);
    case CallRetry(id, authError, current) => RetryAnswers(s, id, authError, current);
    case LockRetry(k, check, stamp) =>
      var s' := s.(arriving := Remove(s.arriving, k), requestsToRetry := s.requestsToRetry + [s.arriving[k].0]);
      RefreshAnswers(s', s.arriving[k].1, check, stamp);
    case Return(k) => OwedIsDelivered(s.delivered, s.returning, s.queue, k);
    case RunQueue(stale, check, stamp) => HeadAnswers(s, stale, check, stamp);
    case CompleteRefresh(result, code) => EndAnswers(s, result, code);
    case SetCredential(_) =>
  }

  /** Over a run. */
  lemma {:induction false} AnswersStayForGood(s: State, events: seq<Event>)
    requires Runs(s, events)
    ensures AnsweredIn(s) <= AnsweredIn(After(s, events)) && s.delivered <= After(s, events).delivered
    decreases |events|
  {
    hide Enabled, Next, Answered;
    if events != [] {
      AnswersStay(s, events[0]);
      AnswersStayForGood(Next(s, events[0]), events[1..]);
    }
  }

  // ---- answers have a reason ------------------------------------------------------------------------

  /** What a run has brought so far: who called adapt, who called retry about an authentication error and who about
      another one, the credentials there were, and the codes of failed refreshes. */
  datatype Book = Book(adapters: set<Id>, retriers: set<Id>, others: set<Id>, credentials: set<Credential>,
                       codes: set<int>)

  function Noted(b: Book, e: Event): Book {
    match e
    case CallAdapt(id, _, _, _) => b.(adapters := b.adapters + {id})
    case CallRetry(id, authError, _) =>
      if authError then b.(retriers := b.retriers + {id}) else b.(others := b.others + {id})
    case CompleteRefresh(Some(c), _) => b.(credentials := b.credentials + {c})
    case CompleteRefresh(None, code) => b.(codes := b.codes + {code})
    case SetCredential(Some(c)) => b.(credentials := b.credentials + {c})
    case _ => b
  }

  function NotedAll(b: Book, events: seq<Event>): Book
    decreases |events|
  {
    if events == [] then b else NotedAll(Noted(b, events[0]), events[1..])
  }

  predicate Known(b: Book, error: AuthError) { error.RefreshFailed? ==> error.code in b.codes }

  /** Only adapt calls are adapted, with a credential there was; only retry calls are retried; and only what is no
      authentication error is sent away without one. */
  predicate Justified(b: Book, call: (Id, Outcome)) {
    match call.1
    case Adapted(c) => call.0 in b.adapters && c in b.credentials
    case NotAdapted(error) => call.0 in b.adapters && Known(b, error)
    case Retry => call.0 in b.retriers
    case DoNotRetryWithError(error) => call.0 in b.retriers && Known(b, error)
    case DoNotRetry => call.0 in b.others
  }

  predicate BlockJustified(b: Book, block: Block) {
    match block
    case StartRefresh(c) => c in b.credentials
    case Finish(id, answer) => answer.Some? ==> Justified(b, (id, answer.value))
    case ResumeAll(adapts, retries) => Within(adapts, b.adapters) && Within(retries, b.retriers)
    case FailAll(adapts, retries, error) =>
      Within(adapts, b.adapters) && Within(retries, b.retriers) && Known(b, error)
  }

  predicate Within(ids: seq<Id>, all: set<Id>) {
    forall i :: 0 <= i < |ids| ==> ids[i] in all
  }

  predicate AllJustified(b: Book, calls: seq<(Id, Outcome)>) {
    forall i :: 0 <= i < |calls| ==> Justified(b, calls[i])
  }

  predicate QueueJustified(b: Book, queue: seq<Block>) {
    forall i :: 0 <= i < |queue| ==> BlockJustified(b, queue[i])
  }

  predicate StateJustified(b: Book, s: State) {
    && (s.credential.Some? ==> s.credential.value in b.credentials)
    && Within(s.adaptOperations, b.adapters)
    && Within(s.requestsToRetry, b.retriers)
    && (forall i :: 0 <= i < |s.arriving| ==> s.arriving[i].0 in b.retriers && s.arriving[i].1 in b.credentials)
    && AllJustified(b, s.returning)
    && AllJustified(b, s.delivered)
    && QueueJustified(b, s.queue)
  }

  predicate Extends(b: Book, more: Book) {
    && b.adapters <= more.adapters && b.retriers <= more.retriers && b.others <= more.others
    && b.credentials <= more.credentials && b.codes <= more.codes
  }

  lemma JustifiedStays(b: Book, more: Book, s: State)
    requires StateJustified(b, s) && Extends(b, more)
    ensures StateJustified(more, s)
  {
    forall i | 0 <= i < |s.queue| ensures BlockJustified(more, s.queue[i]) {
      assert BlockJustified(b, s.queue[i]);
    }
    forall i | 0 <= i < |s.returning| ensures Justified(more, s.returning[i]) {
      assert Justified(b, s.returning[i]);
    }
    forall i | 0 <= i < |s.delivered| ensures Justified(more, s.delivered[i]) {
      assert Justified(b, s.delivered[i]);
    }
  }

  lemma RefreshJustified(b: Book, s: State, credential: Credential, check: Time, stamp: Time)
    requires StateJustified(b, s) && credential in b.credentials
    ensures StateJustified(b, Refresh(s, credential, check, stamp))
  {
    hide IsRefreshExcessive, Justified;
  }

  lemma LockJustified(b: Book, s: State, id: Id, stale: bool, check: Time, stamp: Time)
    requires StateJustified(b, s) && id in b.adapters
    ensures var (t, answer) := AdaptInsideLock(s, id, stale, check, stamp);
            StateJustified(b, t) && (answer.Some? ==> Justified(b, (id, answer.value)))
  {
    hide Refresh;
    if !s.isRefreshing && s.credential.Some? && stale {
      RefreshJustified(b, s.(adaptOperations := s.adaptOperations + [id]), s.credential.value, check, stamp);
    }
  }

  lemma QueueHead(b: Book, block: Block, rest: seq<Block>)
    ensures QueueJustified(b, [block] + rest) <==> BlockJustified(b, block) && QueueJustified(b, rest)
  {
    hide BlockJustified;
    assert ([block] + rest)[0] == block;
    assert forall i :: 0 <= i < |rest| ==> ([block] + rest)[i + 1] == rest[i];
  }

  lemma HeadJustified(b: Book, s: State, stale: bool, check: Time, stamp: Time)
    requires StateJustified(b, s) && s.queue != []
    ensures StateJustified(b, RunHead(s, stale, check, stamp))
  {
    hide AdaptInsideLock, QueueJustified;
    var block, rest := s.queue[0], s.queue[1..];
    assert s.queue == [block] + rest;
    QueueHead(b, block, rest);
    match block
    case StartRefresh(_) =>
    case Finish(_, _) =>
    case ResumeAll(adapts, retries) =>
      if adapts != [] {
        QueueHead(b, ResumeAll(adapts[1..], retries), rest);
        var s' := s.(queue := [ResumeAll(adapts[1..], retries)] + rest);
        LockJustified(b, s', adapts[0], stale, check, stamp);
        var (t, answer) := AdaptInsideLock(s', adapts[0], stale, check, stamp);
        QueueHead(b, Finish(adapts[0], answer), t.queue);
      } else if retries != [] {
        QueueHead(b, ResumeAll([], retries[1..]), rest);
      }
    case FailAll(adapts, retries, error) =>
      if adapts != [] {
        QueueHead(b, FailAll(adapts[1..], retries, error), rest);
      } else if retries != [] {
        QueueHead(b, FailAll([], retries[1..], error), rest);
      }
  }

  lemma CallJustified(b: Book, s: State, id: Id, stale: bool, check: Time, stamp: Time)
    requires StateJustified(b, s) && id in b.adapters
    ensures StateJustified(b, Adapt(s, id, stale, check, stamp))
  {
    hide AdaptInsideLock, QueueJustified;
    LockJustified(b, s, id, stale, check, stamp);
    var (t, answer) := AdaptInsideLock(s, id, stale, check, stamp);
    if answer.Some? {
      assert Justified(b, (id, answer.value));
      assert AllJustified(b, t.returning + [(id, answer.value)]);
    }
  }

  lemma ClockJustified(b: Book, s: State, now: Time, issued: set<Id>)
    requires StateJustified(b, s)
    ensures StateJustified(b, s.(now := now, issued := issued))
  {
    hide Justified, QueueJustified;
  }

  lemma JustifiedKept(b: Book, s: State, e: Event)
    requires StateJustified(b, s) && Enabled(s, e)
    ensures StateJustified(Noted(b, e), Next(s, e))
  {
    hide RunHead, AdaptInsideLock, Adapt, Refresh;
    var c := Noted(b, e);
    JustifiedStays(b, c, s);
    match e
    case CallAdapt(id, stale, check, stamp) =>
      var s' := s.(issued := s.issued + {id});
      ClockJustified(c, s, s.now, s.issued + {id});
      CallJustified(c, s', id, stale, check, stamp);
      var t := Adapt(s', id, stale, check, stamp);
      ClockJustified(c, t, stamp, t.issued);
    case CallRetry(_, _, _) =>
    case LockRetry(k, check, stamp) =>
      var s' := s.(arriving := Remove(s.arriving, k), requestsToRetry := s.requestsToRetry + [s.arriving[k].0]);
      RefreshJustified(c, s', s.arriving[k].1, check, stamp);
    case Return(_) =>
    case RunQueue(stale, check, stamp) => HeadJustified(c, s, stale, check, stamp);
    case CompleteRefresh(_, _) =>
    case SetCredential(_) =>
  }

  lemma {:induction false} JustifiedFrom(b: Book, s: State, events: seq<Event>)
    requires StateJustified(b, s) && Runs(s, events)
    ensures StateJustified(NotedAll(b, events), After(s, events))
    decreases |events|
  {
    hide Enabled, Next, StateJustified, Noted;
    if events != [] {
      JustifiedKept(b, s, events[0]);
      JustifiedFrom(Noted(b, events[0]), Next(s, events[0]), events[1..]);
    }
  }

  /** Over every run each call is answered in kind: what is delivered to it fits what was called and what has
      happened, and refreshes are only ever started with a credential there was. */
  lemma AnsweredInKind(credential: Option<Credential>, window: Option<Window>, now: Time, events: seq<Event>)
    requires Runs(Initial(credential, window, now), events)
    ensures var first := Book({}, {}, {}, if credential.Some? then {credential.value} else {}, {});
            StateJustified(NotedAll(first, events), After(Initial(credential, window, now), events))
  {
    var first := Book({}, {}, {}, if credential.Some? then {credential.value} else {}, {});
    JustifiedFrom(first, Initial(credential, window, now), events);
  }

  // ---- what retry says at once ----------------------------------------------------------------------

  /** Anything but an authentication error is not retried; without a credential there is nothing to refresh; a request
      that did not carry the current credential is retried with it; all others go to the lock. */
  lemma RetryRead(s: State, id: Id, authError: bool, current: bool)
    requires id !in s.issued
    ensures var t, u := Next(s, CallRetry(id, authError, current)), s.(issued := s.issued + {id});
            if authError && s.credential.Some? && current
              then t == u.(arriving := s.arriving + [(id, s.credential.value)])
            else exists answer ::
              && t == u.(returning := s.returning + [(id, answer)])
              && (answer == DoNotRetry <==> !authError)
              && (answer == Retry <==> authError && s.credential.Some? && !current)
              && (answer == DoNotRetryWithError(MissingCredential) <==> authError && s.credential.None?)
  {
    var t := Next(s, CallRetry(id, authError, current));
    if !(authError && s.credential.Some? && current) {
      var answer := t.returning[|s.returning|].1;
      assert t.returning == s.returning + [(id, answer)];
    }
  }
}
