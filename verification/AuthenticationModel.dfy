/** The authentication interceptor as a state machine over its atomic steps: the lock-protected blocks,
    the blocks of the serial queue, and the completions that run outside the lock. */
module AuthenticationModel {
  import opened Words

  type Id = nat
  type Credential = int
  type Time = real

  datatype AuthError = MissingCredential | ExcessiveRefresh | RefreshFailed(code: int)

  datatype Outcome =
    | Adapted(credential: Credential) | NotAdapted(error: AuthError)
    | Retry | DoNotRetry | DoNotRetryWithError(error: AuthError)

  datatype Window = Window(interval: Time, maximumAttempts: int)

  /** A block on the serial queue: start a refresh, resume the waiting operations, or fail them. `Finish`
      is the rest of an adapt call made by a resuming block, after the lock: its completion, if it was not
      deferred. */
  datatype Block =
    | StartRefresh(credential: Credential)
    | Finish(id: Id, answer: Option<Outcome>)
    | ResumeAll(adapts: seq<Id>, retries: seq<Id>)
    | FailAll(adapts: seq<Id>, retries: seq<Id>, error: AuthError)

  /** The first six fields are the mutable state behind the lock. `outstanding` counts the refreshes the
      authenticator has been asked for and has not completed; `arriving` are retries between reading the
      credential and taking the lock; `returning` are calls that left the lock and still owe their
      completion; `delivered` lists the completions called. */
  datatype State = State(
    credential: Option<Credential>,
    isRefreshing: bool,
    refreshTimestamps: seq<Time>,
    refreshWindow: Option<Window>,
    adaptOperations: seq<Id>,
    requestsToRetry: seq<Id>,
    queue: seq<Block>,
    outstanding: nat,
    arriving: seq<(Id, Credential)>,
    returning: seq<(Id, Outcome)>,
    delivered: seq<(Id, Outcome)>,
    issued: set<Id>,
    now: Time)

  // ---- the blocks that run inside the lock ----------------------------------------------------

  /** The number of timestamps at or after `min`. */
  function AttemptsSince(stamps: seq<Time>, min: Time): nat {
    if stamps == [] then 0
    else (if min <= stamps[0] then 1 else 0) + AttemptsSince(stamps[1..], min)
  }

  predicate IsRefreshExcessive(s: State, t: Time) {
    && s.refreshWindow.Some?
    && AttemptsSince(s.refreshTimestamps, t - s.refreshWindow.value.interval) >= s.refreshWindow.value.maximumAttempts
  }

  function HandleRefreshSuccess(s: State, credential: Credential): State {
    s.(credential := Some(credential), adaptOperations := [], requestsToRetry := [], isRefreshing := false,
       queue := s.queue + [ResumeAll(s.adaptOperations, s.requestsToRetry)])
  }

  function HandleRefreshFailure(s: State, error: AuthError): State {
    s.(adaptOperations := [], requestsToRetry := [], isRefreshing := false,
       queue := s.queue + [FailAll(s.adaptOperations, s.requestsToRetry, error)])
  }

  /** The clock is read once for the check and again for the timestamp. */
  function Refresh(s: State, credential: Credential, check: Time, stamp: Time): State {
    if IsRefreshExcessive(s, check) then HandleRefreshFailure(s, ExcessiveRefresh)
    else
      s.(refreshTimestamps := s.refreshTimestamps + [stamp], isRefreshing := true,
         queue := s.queue + [StartRefresh(credential)])
  }

  /** `stale` is what the credential answers when asked whether it requires a refresh. No answer means
      that the call is deferred. */
  function AdaptInsideLock(s: State, id: Id, stale: bool, check: Time, stamp: Time): (State, Option<Outcome>) {
    if s.isRefreshing then (s.(adaptOperations := s.adaptOperations + [id]), None)
    else if s.credential.None? then (s, Some(NotAdapted(MissingCredential)))
    else if stale then
      (Refresh(s.(adaptOperations := s.adaptOperations + [id]), s.credential.value, check, stamp), None)
    else (s, Some(Adapted(s.credential.value)))
  }

  /** A call of `adapt`: unless it is deferred, it leaves the lock and owes its completion. */
  function Adapt(s: State, id: Id, stale: bool, check: Time, stamp: Time): State {
    var (t, answer) := AdaptInsideLock(s, id, stale, check, stamp);
    if answer.None? then t else t.(returning := t.returning + [(id, answer.value)])
  }

  function RetryInsideLock(s: State, id: Id, credential: Credential, check: Time, stamp: Time): State {
    var s' := s.(requestsToRetry := s.requestsToRetry + [id]);
    if s'.isRefreshing then s' else Refresh(s', credential, check, stamp)
  }

  // ---- events ---------------------------------------------------------------------------------

  datatype Event =
    | CallAdapt(id: Id, stale: bool, check: Time, stamp: Time)
    /** `authError`: the failure was an authentication error with a response; `current`: the request
        carried the credential just read. */
    | CallRetry(id: Id, authError: bool, current: bool)
    | LockRetry(k: nat, check: Time, stamp: Time)
    | Return(k: nat)
    | RunQueue(stale: bool, check: Time, stamp: Time)
    | CompleteRefresh(result: Option<Credential>, code: int)
    | SetCredential(value: Option<Credential>)

  function Remove<T>(xs: seq<T>, k: nat): seq<T>
    requires k < |xs|
  {
    xs[..k] + xs[k + 1..]
  }

  predicate ClockOk(s: State, check: Time, stamp: Time) { s.now <= check <= stamp }

  /** The authenticator completes each refresh once, identifiers are new, and the clock never goes back. */
  predicate Enabled(s: State, e: Event) {
    match e
    case CallAdapt(id, _, check, stamp) => id !in s.issued && ClockOk(s, check, stamp)
    case CallRetry(id, _, _) => id !in s.issued
    case LockRetry(k, check, stamp) => k < |s.arriving| && ClockOk(s, check, stamp)
    case Return(k) => k < |s.returning|
    case RunQueue(_, check, stamp) => s.queue != [] && ClockOk(s, check, stamp)
    case CompleteRefresh(_, _) => s.outstanding > 0
    case SetCredential(_) => true
  }

  /** The next action of the block at the head of the queue. */
  function RunHead(s: State, stale: bool, check: Time, stamp: Time): State
    requires s.queue != []
  {
    var rest := s.queue[1..];
    match s.queue[0]
    case StartRefresh(_) => s.(queue := rest, outstanding := s.outstanding + 1)
    case Finish(id, answer) =>
      if answer.None? then s.(queue := rest)
      else s.(queue := rest, delivered := s.delivered + [(id, answer.value)])
    case ResumeAll(adapts, retries) =>
      if adapts != [] then
        var (t, answer) :=
          AdaptInsideLock(s.(queue := [ResumeAll(adapts[1..], retries)] + rest), adapts[0], stale, check, stamp);
        t.(queue := [Finish(adapts[0], answer)] + t.queue)
      else if retries != [] then
        s.(queue := [ResumeAll([], retries[1..])] + rest, delivered := s.delivered + [(retries[0], Retry)])
      else s.(queue := rest)
    case FailAll(adapts, retries, error) =>
      if adapts != [] then
        s.(queue := [FailAll(adapts[1..], retries, error)] + rest,
           delivered := s.delivered + [(adapts[0], NotAdapted(error))])
      else if retries != [] then
        s.(queue := [FailAll([], retries[1..], error)] + rest,
           delivered := s.delivered + [(retries[0], DoNotRetryWithError(error))])
      else s.(queue := rest)
  }

  function Next(s: State, e: Event): State
    requires Enabled(s, e)
  {
    match e
    case CallAdapt(id, stale, check, stamp) =>
      Adapt(s.(issued := s.issued + {id}), id, stale, check, stamp).(now := stamp)
    case CallRetry(id, authError, current) =>
      var s' := s.(issued := s.issued + {id});
      if !authError then s'.(returning := s.returning + [(id, DoNotRetry)])
      else if s.credential.None? then s'.(returning := s.returning + [(id, DoNotRetryWithError(MissingCredential))])
      else if !current then s'.(returning := s.returning + [(id, Retry)])
      else s'.(arriving := s.arriving + [(id, s.credential.value)])
    case LockRetry(k, check, stamp) =>
      var s' := s.(arriving := Remove(s.arriving, k));
      RetryInsideLock(s', s.arriving[k].0, s.arriving[k].1, check, stamp).(now := stamp)
    case Return(k) =>
      s.(returning := Remove(s.returning, k), delivered := s.delivered + [s.returning[k]])
    case RunQueue(stale, check, stamp) => RunHead(s, stale, check, stamp).(now := stamp)
    case CompleteRefresh(result, code) =>
      var s' := s.(outstanding := s.outstanding - 1);
      if result.Some? then HandleRefreshSuccess(s', result.value) else HandleRefreshFailure(s', RefreshFailed(code))
    case SetCredential(value) => s.(credential := value)
  }

  function Initial(credential: Option<Credential>, window: Option<Window>, now: Time): State {
    State(credential, false, [], window, [], [], [], 0, [], [], [], {}, now)
  }

  // ---- one refresh at a time --------------------------------------------------------------------

  function Starts(queue: seq<Block>): nat {
    if queue == [] then 0 else (if queue[0].StartRefresh? then 1 else 0) + Starts(queue[1..])
  }

  lemma {:induction false} StartsAppend(queue: seq<Block>, b: Block)
    ensures Starts(queue + [b]) == Starts(queue) + if b.StartRefresh? then 1 else 0
  {
    if queue == [] {
      assert queue + [b] == [b];
    } else {
      assert (queue + [b])[1..] == queue[1..] + [b];
      StartsAppend(queue[1..], b);
    }
  }

  /** Exactly while refreshing, one refresh is queued or outstanding; otherwise nothing waits for one. */
  predicate OneRefresh(s: State) {
    && Starts(s.queue) + s.outstanding == (if s.isRefreshing then 1 else 0)
    && (!s.isRefreshing ==> s.adaptOperations == [] && s.requestsToRetry == [])
  }

  /** Like `OneRefresh`, inside the lock, after an operation was added to a waiting list. */
  predicate RefreshDue(s: State) {
    Starts(s.queue) + s.outstanding == 0 && !s.isRefreshing
  }

  lemma RefreshKeepsOne(s: State, credential: Credential, check: Time, stamp: Time)
    requires RefreshDue(s)
    ensures OneRefresh(Refresh(s, credential, check, stamp))
  {
    StartsAppend(s.queue, StartRefresh(credential));
    StartsAppend(s.queue, FailAll(s.adaptOperations, s.requestsToRetry, ExcessiveRefresh));
  }

  lemma AdaptKeepsOne(s: State, id: Id, stale: bool, check: Time, stamp: Time)
    requires OneRefresh(s)
    ensures OneRefresh(AdaptInsideLock(s, id, stale, check, stamp).0)
  {
    if !s.isRefreshing && s.credential.Some? && stale {
      RefreshKeepsOne(s.(adaptOperations := s.adaptOperations + [id]), s.credential.value, check, stamp);
    }
  }

  lemma StartsHead(b: Block, rest: seq<Block>)
    ensures Starts([b] + rest) == Starts(rest) + if b.StartRefresh? then 1 else 0
  {
    assert ([b] + rest)[1..] == rest;
  }

  lemma HeadKeepsOne(s: State, stale: bool, check: Time, stamp: Time)
    requires OneRefresh(s) && s.queue != []
    ensures OneRefresh(RunHead(s, stale, check, stamp))
  {
    hide AdaptInsideLock;
    var rest := s.queue[1..];
    match s.queue[0]
    case StartRefresh(_) =>
    case Finish(_, _) =>
    case ResumeAll(adapts, retries) =>
      if adapts != [] {
        StartsHead(ResumeAll(adapts[1..], retries), rest);
        var s' := s.(queue := [ResumeAll(adapts[1..], retries)] + rest);
        AdaptKeepsOne(s', adapts[0], stale, check, stamp);
        var (t, answer) := AdaptInsideLock(s', adapts[0], stale, check, stamp);
        StartsHead(Finish(adapts[0], answer), t.queue);
      } else if retries != [] {
        StartsHead(ResumeAll([], retries[1..]), rest);
      }
    case FailAll(adapts, retries, error) =>
      if adapts != [] {
        StartsHead(FailAll(adapts[1..], retries, error), rest);
      } else if retries != [] {
        StartsHead(FailAll([], retries[1..], error), rest);
      }
  }

  lemma OneRefreshKept(s: State, e: Event)
    requires OneRefresh(s) && Enabled(s, e)
    ensures OneRefresh(Next(s, e))
  {
    hide RunHead, AdaptInsideLock, IsRefreshExcessive;
    match e
    case CallAdapt(id, stale, check, stamp) => AdaptKeepsOne(s.(issued := s.issued + {id}), id, stale, check, stamp);
    case CallRetry(_, _, _) =>
    case LockRetry(k, check, stamp) =>
      if !s.isRefreshing {
        RefreshKeepsOne(s.(arriving := Remove(s.arriving, k), requestsToRetry := s.requestsToRetry + [s.arriving[k].0]),
                        s.arriving[k].1, check, stamp);
      }
    case Return(_) =>
    case RunQueue(stale, check, stamp) => HeadKeepsOne(s, stale, check, stamp);
    case CompleteRefresh(result, code) =>
      StartsAppend(s.queue, ResumeAll(s.adaptOperations, s.requestsToRetry));
      StartsAppend(s.queue, FailAll(s.adaptOperations, s.requestsToRetry, RefreshFailed(code)));
    case SetCredential(_) =>
  }

  // ---- every completion is called once ------------------------------------------------------------

  function Count(xs: seq<Id>, who: Id): nat {
    if xs == [] then 0 else (if xs[0] == who then 1 else 0) + Count(xs[1..], who)
  }

  function Owed<T>(xs: seq<(Id, T)>, who: Id): nat {
    if xs == [] then 0 else (if xs[0].0 == who then 1 else 0) + Owed(xs[1..], who)
  }

  function InBlock(b: Block, who: Id): nat {
    match b
    case StartRefresh(_) => 0
    case Finish(id, answer) => if answer.None? then 0 else One(id, who)
    case ResumeAll(adapts, retries) => Count(adapts, who) + Count(retries, who)
    case FailAll(adapts, retries, _) => Count(adapts, who) + Count(retries, who)
  }

  function InQueue(queue: seq<Block>, who: Id): nat {
    if queue == [] then 0 else InBlock(queue[0], who) + InQueue(queue[1..], who)
  }

  /** The number of places a call is in: waiting for a refresh, on the queue, on its way to the lock,
      owing its completion, or completed. */
  function Places(s: State, who: Id): nat {
    Count(s.adaptOperations, who) + Count(s.requestsToRetry, who) + InQueue(s.queue, who)
      + Owed(s.arriving, who) + Owed(s.returning, who) + Owed(s.delivered, who)
  }

  /** Each call that was made is in exactly one place, and no other call is anywhere. */
  ghost predicate Conserved(s: State) {
    forall who: Id :: Places(s, who) == if who in s.issued then 1 else 0
  }

  function One(id: Id, who: Id): nat { if id == who then 1 else 0 }

  lemma {:induction false} CountAppend(xs: seq<Id>, id: Id, who: Id)
    ensures Count(xs + [id], who) == Count(xs, who) + One(id, who)
  {
    if xs == [] {
      assert xs + [id] == [id];
    } else {
      assert (xs + [id])[1..] == xs[1..] + [id];
      CountAppend(xs[1..], id, who);
    }
  }

  lemma {:induction false} OwedAppend<T>(xs: seq<(Id, T)>, x: (Id, T), who: Id)
    ensures Owed(xs + [x], who) == Owed(xs, who) + One(x.0, who)
  {
    if xs == [] {
      assert xs + [x] == [x];
    } else {
      assert (xs + [x])[1..] == xs[1..] + [x];
      OwedAppend(xs[1..], x, who);
    }
  }

  lemma {:induction false} OwedRemove<T>(xs: seq<(Id, T)>, k: nat, who: Id)
    requires k < |xs|
    ensures Owed(xs, who) == Owed(Remove(xs, k), who) + One(xs[k].0, who)
  {
    if k == 0 {
      assert Remove(xs, 0) == xs[1..];
    } else {
      assert Remove(xs, k)[1..] == Remove(xs[1..], k - 1);
      OwedRemove(xs[1..], k - 1, who);
    }
  }

  lemma {:induction false} InQueueAppend(queue: seq<Block>, b: Block, who: Id)
    ensures InQueue(queue + [b], who) == InQueue(queue, who) + InBlock(b, who)
  {
    if queue == [] {
      assert queue + [b] == [b];
    } else {
      assert (queue + [b])[1..] == queue[1..] + [b];
      InQueueAppend(queue[1..], b, who);
    }
  }

  lemma InQueueHead(b: Block, rest: seq<Block>, who: Id)
    ensures InQueue([b] + rest, who) == InBlock(b, who) + InQueue(rest, who)
  {
    assert ([b] + rest)[1..] == rest;
  }

  lemma FailureMovesNobody(s: State, error: AuthError, who: Id)
    ensures Places(HandleRefreshFailure(s, error), who) == Places(s, who)
  {
    InQueueAppend(s.queue, FailAll(s.adaptOperations, s.requestsToRetry, error), who);
  }

  lemma SuccessMovesNobody(s: State, credential: Credential, who: Id)
    ensures Places(HandleRefreshSuccess(s, credential), who) == Places(s, who)
  {
    InQueueAppend(s.queue, ResumeAll(s.adaptOperations, s.requestsToRetry), who);
  }

  lemma RefreshMovesNobody(s: State, credential: Credential, check: Time, stamp: Time, who: Id)
    ensures Places(Refresh(s, credential, check, stamp), who) == Places(s, who)
  {
    hide HandleRefreshFailure;
    InQueueAppend(s.queue, StartRefresh(credential), who);
    FailureMovesNobody(s, ExcessiveRefresh, who);
  }

  lemma AdaptAdds(s: State, id: Id, stale: bool, check: Time, stamp: Time, who: Id)
    ensures var (t, answer) := AdaptInsideLock(s, id, stale, check, stamp);
            Places(t, who) + (if answer.None? then 0 else One(id, who)) == Places(s, who) + One(id, who)
  {
    hide Refresh;
    CountAppend(s.adaptOperations, id, who);
    if !s.isRefreshing && s.credential.Some? && stale {
      RefreshMovesNobody(s.(adaptOperations := s.adaptOperations + [id]), s.credential.value, check, stamp, who);
    }
  }

  lemma CallAdds(s: State, id: Id, stale: bool, check: Time, stamp: Time, who: Id)
    ensures Places(Adapt(s, id, stale, check, stamp), who) == Places(s, who) + One(id, who)
  {
    hide AdaptInsideLock;
    AdaptAdds(s, id, stale, check, stamp, who);
    var (t, answer) := AdaptInsideLock(s, id, stale, check, stamp);
    if answer.Some? {
      OwedAppend(t.returning, (id, answer.value), who);
    }
  }

  lemma QueuedAdaptMoves(s: State, stale: bool, check: Time, stamp: Time, who: Id)
    requires s.queue != [] && s.queue[0].ResumeAll? && s.queue[0].adapts != []
    ensures Places(RunHead(s, stale, check, stamp), who) == Places(s, who)
  {
    hide AdaptInsideLock, Owed;
    var b, rest := ResumeAll(s.queue[0].adapts[1..], s.queue[0].retries), s.queue[1..];
    var id, s' := s.queue[0].adapts[0], s.(queue := [b] + rest);
    InQueueHead(b, rest, who);
    AdaptAdds(s', id, stale, check, stamp, who);
    var (t, answer) := AdaptInsideLock(s', id, stale, check, stamp);
    InQueueHead(Finish(id, answer), t.queue, who);
  }

  lemma RunHeadMoves(s: State, stale: bool, check: Time, stamp: Time, who: Id)
    requires s.queue != []
    ensures Places(RunHead(s, stale, check, stamp), who) == Places(s, who)
  {
    hide AdaptInsideLock, Owed;
    var rest := s.queue[1..];
    match s.queue[0]
    case StartRefresh(_) =>
    case Finish(id, answer) =>
      if answer.Some? {
        OwedAppend(s.delivered, (id, answer.value), who);
      }
    case ResumeAll(adapts, retries) =>
      if adapts != [] {
        QueuedAdaptMoves(s, stale, check, stamp, who);
      } else if retries != [] {
        InQueueHead(ResumeAll([], retries[1..]), rest, who);
        OwedAppend(s.delivered, (retries[0], Retry), who);
      }
    case FailAll(adapts, retries, error) =>
      if adapts != [] {
        InQueueHead(FailAll(adapts[1..], retries, error), rest, who);
        OwedAppend(s.delivered, (adapts[0], NotAdapted(error)), who);
      } else if retries != [] {
        InQueueHead(FailAll([], retries[1..], error), rest, who);
        OwedAppend(s.delivered, (retries[0], DoNotRetryWithError(error)), who);
      }
  }

  /** The call an event makes, if any. */
  function Caller(e: Event): Option<Id> {
    match e
    case CallAdapt(id, _, _, _) => Some(id)
    case CallRetry(id, _, _) => Some(id)
    case _ => None
  }

  lemma PlacesKept(s: State, e: Event, who: Id)
    requires Enabled(s, e)
    ensures Places(Next(s, e), who) == Places(s, who) + if Caller(e).Some? then One(Caller(e).value, who) else 0
  {
    hide Adapt, Refresh, RunHead, HandleRefreshSuccess, HandleRefreshFailure;
    match e
    case CallAdapt(id, stale, check, stamp) => CallAdds(s.(issued := s.issued + {id}), id, stale, check, stamp, who);
    case CallRetry(id, authError, current) =>
      if !authError {
        OwedAppend(s.returning, (id, DoNotRetry), who);
      } else if s.credential.None? {
        OwedAppend(s.returning, (id, DoNotRetryWithError(MissingCredential)), who);
      } else if !current {
        OwedAppend(s.returning, (id, Retry), who);
      } else {
        OwedAppend(s.arriving, (id, s.credential.value), who);
      }
    case LockRetry(k, check, stamp) =>
      OwedRemove(s.arriving, k, who);
      CountAppend(s.requestsToRetry, s.arriving[k].0, who);
      var s' := s.(arriving := Remove(s.arriving, k), requestsToRetry := s.requestsToRetry + [s.arriving[k].0]);
      RefreshMovesNobody(s', s.arriving[k].1, check, stamp, who);
    case Return(k) =>
      OwedRemove(s.returning, k, who);
      OwedAppend(s.delivered, s.returning[k], who);
    case RunQueue(stale, check, stamp) => RunHeadMoves(s, stale, check, stamp, who);
    case CompleteRefresh(result, code) =>
      var s' := s.(outstanding := s.outstanding - 1);
      FailureMovesNobody(s', RefreshFailed(code), who);
      if result.Some? {
        SuccessMovesNobody(s', result.value, who);
      }
    case SetCredential(_) =>
  }

  lemma IssuedAfter(s: State, e: Event)
    requires Enabled(s, e)
    ensures Next(s, e).issued == if Caller(e).Some? then s.issued + {Caller(e).value} else s.issued
    ensures Caller(e).Some? ==> Caller(e).value !in s.issued
  {
  }

  lemma ConservedKept(s: State, e: Event)
    requires Conserved(s) && Enabled(s, e)
    ensures Conserved(Next(s, e))
  {
    hide Next, Places, Enabled;
    IssuedAfter(s, e);
    forall who: Id ensures Places(Next(s, e), who) == if who in Next(s, e).issued then 1 else 0 {
      PlacesKept(s, e, who);
    }
  }

  // ---- the rate limit ----------------------------------------------------------------------------

  /** The refreshes started in a closed interval of time. */
  function StartedIn(stamps: seq<Time>, from: Time, to: Time): nat {
    if stamps == [] then 0
    else (if from <= stamps[0] <= to then 1 else 0) + StartedIn(stamps[1..], from, to)
  }

  predicate WithinLimit(stamps: seq<Time>, window: Window, from: Time) {
    StartedIn(stamps, from, from + window.interval) <= if window.maximumAttempts < 0 then 0 else window.maximumAttempts
  }

  /** No closed interval of the window's length holds more starts than the window allows. */
  ghost predicate RateLimited(s: State) {
    s.refreshWindow.Some? ==> forall from: Time :: WithinLimit(s.refreshTimestamps, s.refreshWindow.value, from)
  }

  lemma {:induction false} StartedAppend(stamps: seq<Time>, stamp: Time, from: Time, to: Time)
    ensures StartedIn(stamps + [stamp], from, to) == StartedIn(stamps, from, to) + if from <= stamp <= to then 1 else 0
  {
    if stamps == [] {
      assert stamps + [stamp] == [stamp];
    } else {
      assert (stamps + [stamp])[1..] == stamps[1..] + [stamp];
      StartedAppend(stamps[1..], stamp, from, to);
    }
  }

  lemma {:induction false} StartedAreAttempts(stamps: seq<Time>, min: Time, from: Time, to: Time)
    requires min <= from
    ensures StartedIn(stamps, from, to) <= AttemptsSince(stamps, min)
  {
    if stamps != [] {
      StartedAreAttempts(stamps[1..], min, from, to);
    }
  }

  /** A start recorded at `stamp` was allowed by a check at an earlier reading of the clock. */
  lemma RefreshKeepsRate(s: State, credential: Credential, check: Time, stamp: Time)
    requires RateLimited(s) && check <= stamp
    ensures RateLimited(Refresh(s, credential, check, stamp))
  {
    if s.refreshWindow.Some? && !IsRefreshExcessive(s, check) {
      var window := s.refreshWindow.value;
      forall from: Time ensures WithinLimit(s.refreshTimestamps + [stamp], window, from) {
        assert WithinLimit(s.refreshTimestamps, window, from);
        StartedAppend(s.refreshTimestamps, stamp, from, from + window.interval);
        if from <= stamp <= from + window.interval {
          StartedAreAttempts(s.refreshTimestamps, check - window.interval, from, from + window.interval);
        }
      }
    }
  }

  lemma AdaptKeepsRate(s: State, id: Id, stale: bool, check: Time, stamp: Time)
    requires RateLimited(s) && check <= stamp
    ensures RateLimited(AdaptInsideLock(s, id, stale, check, stamp).0)
  {
    hide Refresh;
    if !s.isRefreshing && s.credential.Some? && stale {
      RefreshKeepsRate(s.(adaptOperations := s.adaptOperations + [id]), s.credential.value, check, stamp);
    }
  }

  lemma RateLimitKept(s: State, e: Event)
    requires RateLimited(s) && Enabled(s, e)
    ensures RateLimited(Next(s, e))
  {
    hide AdaptInsideLock, Refresh;
    match e
    case CallAdapt(id, stale, check, stamp) => AdaptKeepsRate(s.(issued := s.issued + {id}), id, stale, check, stamp);
    case LockRetry(k, check, stamp) =>
      var s' := s.(arriving := Remove(s.arriving, k), requestsToRetry := s.requestsToRetry + [s.arriving[k].0]);
      RefreshKeepsRate(s', s.arriving[k].1, check, stamp);
    case RunQueue(stale, check, stamp) =>
      if s.queue[0].ResumeAll? && s.queue[0].adapts != [] {
        var b := ResumeAll(s.queue[0].adapts[1..], s.queue[0].retries);
        AdaptKeepsRate(s.(queue := [b] + s.queue[1..]), s.queue[0].adapts[0], stale, check, stamp);
      }
    case _ =>
  }

  // ---- whole runs ---------------------------------------------------------------------------------

  /** The events happen one after the other, each when it is enabled. */
  predicate Runs(s: State, events: seq<Event>)
    decreases |events|
  {
    events == [] || (Enabled(s, events[0]) && Runs(Next(s, events[0]), events[1..]))
  }

  function After(s: State, events: seq<Event>): State
    requires Runs(s, events)
    decreases |events|
  {
    if events == [] then s else After(Next(s, events[0]), events[1..])
  }

  ghost predicate Safe(s: State) {
    OneRefresh(s) && Conserved(s) && RateLimited(s)
  }

  lemma SafeKept(s: State, e: Event)
    requires Safe(s) && Enabled(s, e)
    ensures Safe(Next(s, e))
  {
    hide Enabled, Next, OneRefresh, Conserved, RateLimited;
    OneRefreshKept(s, e);
    ConservedKept(s, e);
    RateLimitKept(s, e);
  }

  lemma SafeInitially(credential: Option<Credential>, window: Option<Window>, now: Time)
    ensures Safe(Initial(credential, window, now))
  {
    assert forall who: Id :: Places(Initial(credential, window, now), who) == 0;
  }

  lemma {:induction false} SafeFrom(s: State, events: seq<Event>)
    requires Safe(s) && Runs(s, events)
    ensures Safe(After(s, events))
    decreases |events|
  {
    hide Enabled, Next, Safe;
    if events != [] {
      SafeKept(s, events[0]);
      SafeFrom(Next(s, events[0]), events[1..]);
    }
  }

  /** Over every interleaving: at most one refresh is under way and it is so exactly while refreshing;
      nothing waits otherwise; each call is in exactly one place, so its completion is called at most
      once; and refreshes never exceed the window's rate. */
  lemma EveryRunIsSafe(credential: Option<Credential>, window: Option<Window>, now: Time, events: seq<Event>)
    requires Runs(Initial(credential, window, now), events)
    ensures Safe(After(Initial(credential, window, now), events))
  {
    SafeInitially(credential, window, now);
    SafeFrom(Initial(credential, window, now), events);
  }

  /** Nothing is left to do: no queued block, no refresh at the authenticator, no call between steps. */
  predicate Quiescent(s: State) {
    s.queue == [] && s.outstanding == 0 && s.arriving == [] && s.returning == []
  }

  /** Once all is quiet, every call made has had its completion called exactly once. */
  lemma QuietMeansAnswered(s: State)
    requires Safe(s) && Quiescent(s)
    ensures !s.isRefreshing
    ensures forall who: Id :: Owed(s.delivered, who) == if who in s.issued then 1 else 0
  {
    forall who: Id ensures Owed(s.delivered, who) == if who in s.issued then 1 else 0 {
      assert Places(s, who) == if who in s.issued then 1 else 0;
      assert Count([], who) == 0 && InQueue([], who) == 0;
    }
  }

  // ---- every run ends -----------------------------------------------------------------------------

  function Weight(b: Block): nat {
    match b
    case StartRefresh(_) => 1
    case Finish(_, _) => 1
    case ResumeAll(adapts, retries) => 1 + 2 * |adapts| + |retries|
    case FailAll(adapts, retries, _) => 1 + |adapts| + |retries|
  }

  function QueueWeight(queue: seq<Block>): nat {
    if queue == [] then 0 else Weight(queue[0]) + QueueWeight(queue[1..])
  }

  /** The calls in a block. */
  function Calls(b: Block): nat {
    match b
    case StartRefresh(_) => 0
    case Finish(_, answer) => if answer.None? then 0 else 1
    case ResumeAll(adapts, retries) => |adapts| + |retries|
    case FailAll(adapts, retries, _) => |adapts| + |retries|
  }

  function QueueCalls(queue: seq<Block>): nat {
    if queue == [] then 0 else Calls(queue[0]) + QueueCalls(queue[1..])
  }

  lemma {:induction false} MeasuresAppend(queue: seq<Block>, b: Block)
    ensures QueueWeight(queue + [b]) == QueueWeight(queue) + Weight(b)
    ensures QueueCalls(queue + [b]) == QueueCalls(queue) + Calls(b)
  {
    if queue == [] {
      assert queue + [b] == [b];
    } else {
      assert (queue + [b])[1..] == queue[1..] + [b];
      MeasuresAppend(queue[1..], b);
    }
  }

  lemma MeasuresHead(b: Block, rest: seq<Block>)
    ensures QueueWeight([b] + rest) == Weight(b) + QueueWeight(rest)
    ensures QueueCalls([b] + rest) == Calls(b) + QueueCalls(rest)
  {
    assert ([b] + rest)[1..] == rest;
  }

  /** The calls not yet answered. */
  function Unanswered(s: State): nat {
    |s.adaptOperations| + |s.requestsToRetry| + QueueCalls(s.queue) + |s.arriving| + |s.returning|
  }

  /** How many more refreshes there can be, each counted with its steps. */
  function Refreshes(s: State): nat {
    3 * |s.arriving| + 2 * Starts(s.queue) + s.outstanding
  }

  function Steps(s: State): nat { QueueWeight(s.queue) + |s.returning| }

  /** An event that makes no new call, when the credential is fresh. */
  predicate Settling(e: Event) {
    match e
    case LockRetry(_, _, _) => true
    case Return(_) => true
    case RunQueue(stale, _, _) => !stale
    case CompleteRefresh(_, _) => true
    case _ => false
  }

  /** No run of such events from s is longer. */
  function Bound(s: State): nat {
    Refreshes(s) * (2 * Unanswered(s) + 2) + Steps(s)
  }

  lemma BoundFalls(s: State, t: State)
    requires Unanswered(t) <= Unanswered(s)
    requires || (Refreshes(t) <= Refreshes(s) && Steps(t) < Steps(s))
             || (Refreshes(t) < Refreshes(s) && Steps(t) <= Steps(s) + 2 * Unanswered(s) + 1)
    ensures Bound(t) < Bound(s)
  {
    hide Refreshes, Unanswered, Steps;
    var u, v := 2 * Unanswered(s) + 2, 2 * Unanswered(t) + 2;
    MulMono(v, u, Refreshes(t));
    if Refreshes(t) < Refreshes(s) {
      MulMono(Refreshes(t) + 1, Refreshes(s), u);
    } else {
      assert Refreshes(t) == Refreshes(s);
    }
    assert Refreshes(t) * v <= Refreshes(t) * u;
  }

  lemma RefreshSettles(s: State, credential: Credential, check: Time, stamp: Time)
    ensures var t := Refresh(s, credential, check, stamp);
            && Unanswered(t) == Unanswered(s)
            && Refreshes(t) <= Refreshes(s) + 2
            && Steps(t) <= Steps(s) + 1 + |s.adaptOperations| + |s.requestsToRetry|
  {
    var failed := FailAll(s.adaptOperations, s.requestsToRetry, ExcessiveRefresh);
    MeasuresAppend(s.queue, StartRefresh(credential));
    MeasuresAppend(s.queue, failed);
    StartsAppend(s.queue, StartRefresh(credential));
    StartsAppend(s.queue, failed);
  }

  /** Measures of the state when the head of the queue is replaced. */
  lemma HeadMeasures(s: State, b: Block, rest: seq<Block>)
    requires s.queue == [b] + rest
    ensures QueueWeight(s.queue) == Weight(b) + QueueWeight(rest) && QueueCalls(s.queue) == Calls(b) + QueueCalls(rest)
    ensures Starts(s.queue) == Starts(rest) + if b.StartRefresh? then 1 else 0
  {
    MeasuresHead(b, rest);
    StartsHead(b, rest);
  }

  lemma QueuedAdaptSettles(s: State, check: Time, stamp: Time)
    requires s.queue != [] && s.queue[0].ResumeAll? && s.queue[0].adapts != []
    ensures Bound(RunHead(s, false, check, stamp)) < Bound(s)
  {
    hide Bound;
    var head, rest := s.queue[0], s.queue[1..];
    var b := ResumeAll(head.adapts[1..], head.retries);
    var (t, answer) := AdaptInsideLock(s.(queue := [b] + rest), head.adapts[0], false, check, stamp);
    var s' := RunHead(s, false, check, stamp);
    assert s.queue == [head] + rest;
    HeadMeasures(s, head, rest);
    HeadMeasures(t, b, rest);
    HeadMeasures(s', Finish(head.adapts[0], answer), t.queue);
    BoundFalls(s, s');
  }

  lemma RunHeadSettles(s: State, check: Time, stamp: Time)
    requires s.queue != []
    ensures Bound(RunHead(s, false, check, stamp)) < Bound(s)
  {
    hide Bound, AdaptInsideLock, QueueWeight, QueueCalls, Starts;
    var head, rest := s.queue[0], s.queue[1..];
    var s' := RunHead(s, false, check, stamp);
    assert s.queue == [head] + rest;
    HeadMeasures(s, head, rest);
    match head
    case StartRefresh(_) => BoundFalls(s, s');
    case Finish(_, _) => BoundFalls(s, s');
    case ResumeAll(adapts, retries) =>
      if adapts != [] {
        QueuedAdaptSettles(s, check, stamp);
      } else {
        if retries != [] {
          HeadMeasures(s', ResumeAll([], retries[1..]), rest);
        }
        BoundFalls(s, s');
      }
    case FailAll(adapts, retries, error) =>
      if adapts != [] {
        HeadMeasures(s', FailAll(adapts[1..], retries, error), rest);
      } else if retries != [] {
        HeadMeasures(s', FailAll([], retries[1..], error), rest);
      }
      BoundFalls(s, s');
  }

  /** Each settling event brings the end closer. */
  lemma SettlingStep(s: State, e: Event)
    requires Enabled(s, e) && Settling(e)
    ensures Bound(Next(s, e)) < Bound(s)
  {
    hide Bound, QueueWeight, QueueCalls, Starts, RunHead, Refresh;
    match e
    case RunQueue(_, check, stamp) =>
      RunHeadSettles(s, check, stamp);
      SameBound(RunHead(s, false, check, stamp), stamp);
    case CompleteRefresh(_, code) =>
      MeasuresAppend(s.queue, ResumeAll(s.adaptOperations, s.requestsToRetry));
      MeasuresAppend(s.queue, FailAll(s.adaptOperations, s.requestsToRetry, RefreshFailed(code)));
      StartsAppend(s.queue, ResumeAll(s.adaptOperations, s.requestsToRetry));
      StartsAppend(s.queue, FailAll(s.adaptOperations, s.requestsToRetry, RefreshFailed(code)));
      BoundFalls(s, Next(s, e));
    case LockRetry(k, check, stamp) =>
      var s' := s.(arriving := Remove(s.arriving, k), requestsToRetry := s.requestsToRetry + [s.arriving[k].0]);
      RefreshSettles(s', s.arriving[k].1, check, stamp);
      BoundFalls(s, Next(s, e));
    case Return(_) => BoundFalls(s, Next(s, e));
  }

  lemma SameBound(s: State, now: Time)
    ensures Bound(s.(now := now)) == Bound(s)
  {
  }

  /** Every run without new calls and with fresh credentials ends, however its refreshes end and its
      steps interleave. */
  lemma {:induction false} EveryRunEnds(s: State, events: seq<Event>)
    requires Runs(s, events) && forall e :: e in events ==> Settling(e)
    ensures |events| + Bound(After(s, events)) <= Bound(s)
    decreases |events|
  {
    hide Enabled, Next, Bound, Settling;
    if events != [] {
      SettlingStep(s, events[0]);
      EveryRunEnds(Next(s, events[0]), events[1..]);
    }
  }

  /** While there is something left to do, there is such an event. */
  lemma DrainStep(s: State) returns (e: Event)
    requires !Quiescent(s)
    ensures Enabled(s, e) && Settling(e)
  {
    if s.queue != [] {
      e := RunQueue(false, s.now, s.now);
    } else if s.outstanding > 0 {
      e := CompleteRefresh(None, 0);
    } else if s.arriving != [] {
      e := LockRetry(0, s.now, s.now);
    } else {
      e := Return(0);
    }
  }

  /** When such a run cannot go on, nothing is left to do, and every call made has been answered once. */
  lemma EveryFullRunAnswers(s: State, events: seq<Event>)
    requires Safe(s) && Runs(s, events)
    requires forall e :: Settling(e) ==> !Enabled(After(s, events), e)
    ensures Quiescent(After(s, events))
    ensures forall who: Id ::
              Owed(After(s, events).delivered, who) == if who in After(s, events).issued then 1 else 0
  {
    hide Safe, Runs, After, Quiescent, Enabled, Settling;
    SafeFrom(s, events);
    if !Quiescent(After(s, events)) {
      var e := DrainStep(After(s, events));
    }
    QuietMeansAnswered(After(s, events));
  }

  /** Such runs exist: from any state, to one where nothing is left to do. */
  lemma {:induction false} Drains(s: State) returns (events: seq<Event>)
    ensures forall e :: e in events ==> Settling(e)
    ensures Runs(s, events) && Quiescent(After(s, events)) && After(s, events).issued == s.issued
    decreases Bound(s)
  {
    hide Enabled, Next, Quiescent, Bound, Settling;
    if Quiescent(s) {
      events := [];
    } else {
      var e := DrainStep(s);
      SettlingStep(s, e);
      var rest := Drains(Next(s, e));
      events := [e] + rest;
      SettlingIssues(s, e);
      assert events[1..] == rest;
    }
  }

  lemma SettlingIssues(s: State, e: Event)
    requires Enabled(s, e) && Settling(e)
    ensures Next(s, e).issued == s.issued
  {
    hide Refresh, AdaptInsideLock;
    IssuedAfter(s, e);
  }

  /** So from every state of a run the calls made so far can all be answered, each exactly once. */
  lemma EveryCallCanBeAnswered(s: State) returns (events: seq<Event>)
    requires Safe(s)
    ensures forall e :: e in events ==> Settling(e)
    ensures Runs(s, events) && Quiescent(After(s, events))
    ensures forall who: Id :: Owed(After(s, events).delivered, who) == if who in s.issued then 1 else 0
  {
    hide Safe, Runs, After, Quiescent, Settling;
    events := Drains(s);
    SafeFrom(s, events);
    QuietMeansAnswered(After(s, events));
  }

  /** In particular no waiting call is ever stranded. */
  lemma NeverStuck(s: State) returns (e: Event)
    requires Safe(s) && exists who: Id :: who in s.issued && Owed(s.delivered, who) == 0
    ensures Enabled(s, e) && Settling(e)
  {
    if Quiescent(s) {
      QuietMeansAnswered(s);
      assert false;
    }
    e := DrainStep(s);
  }

  // ---- what waiting calls are told ------------------------------------------------------------------

  /** What the credential and the clock answer at one step. */
  datatype Reading = Reading(stale: bool, check: Time, stamp: Time)

  /** One call dealt with by the block at the head of the queue, the completion of an adapted one included:
      nothing else on the queue comes between. */
  function RunCall(s: State, r: Reading): State
    requires s.queue != []
  {
    var t := RunHead(s, r.stale, r.check, r.stamp);
    if s.queue[0].ResumeAll? && s.queue[0].adapts != [] then RunHead(t, r.stale, r.check, r.stamp) else t
  }

  function RunEach(s: State, readings: seq<Reading>): State
    decreases |readings|
  {
    if readings == [] || s.queue == [] then s else RunEach(RunCall(s, readings[0]), readings[1..])
  }

  function Answers(ids: seq<Id>, answer: Outcome): (all: seq<(Id, Outcome)>)
    ensures |all| == |ids| && forall i :: 0 <= i < |ids| ==> all[i] == (ids[i], answer)
  {
    seq(|ids|, i requires 0 <= i < |ids| => (ids[i], answer))
  }

  lemma AnswersHead(ids: seq<Id>, answer: Outcome)
    requires ids != []
    ensures Answers(ids, answer) == [(ids[0], answer)] + Answers(ids[1..], answer)
  {
  }

  lemma RunOnce(s: State, readings: seq<Reading>)
    requires readings != [] && s.queue != []
    ensures RunEach(s, readings) == RunEach(RunCall(s, readings[0]), readings[1..])
  {
    hide RunCall;
  }

  /** A failed refresh's block answers every waiting call with the error, adapts before retries, each in
      the order they came, and changes nothing else. */
  lemma {:induction false} FailAllDrains(s: State, adapts: seq<Id>, retries: seq<Id>, error: AuthError,
                                         rest: seq<Block>, readings: seq<Reading>)
    requires s.queue == [FailAll(adapts, retries, error)] + rest && |readings| == |adapts| + |retries| + 1
    ensures RunEach(s, readings)
         == s.(queue := rest,
               delivered := s.delivered + Answers(adapts, NotAdapted(error))
                              + Answers(retries, DoNotRetryWithError(error)))
    decreases |adapts| + |retries|
  {
    hide RunEach, Answers;
    RunOnce(s, readings);
    var s' := RunCall(s, readings[0]);
    assert s.queue[1..] == rest;
    if adapts != [] {
      assert s' == s.(queue := [FailAll(adapts[1..], retries, error)] + rest,
                      delivered := s.delivered + [(adapts[0], NotAdapted(error))]);
      AnswersHead(adapts, NotAdapted(error));
      FailAllDrains(s', adapts[1..], retries, error, rest, readings[1..]);
      assert s'.delivered + Answers(adapts[1..], NotAdapted(error)) == s.delivered + Answers(adapts, NotAdapted(error));
    } else if retries != [] {
      assert s' == s.(queue := [FailAll([], retries[1..], error)] + rest,
                      delivered := s.delivered + [(retries[0], DoNotRetryWithError(error))]);
      AnswersHead(retries, DoNotRetryWithError(error));
      FailAllDrains(s', [], retries[1..], error, rest, readings[1..]);
      NoAnswers(s.delivered, NotAdapted(error));
      NoAnswers(s'.delivered, NotAdapted(error));
      assert s'.delivered + Answers(retries[1..], DoNotRetryWithError(error))
          == s.delivered + Answers(retries, DoNotRetryWithError(error));
    } else {
      RunNone(s');
      NoAnswers(s.delivered, NotAdapted(error));
      NoAnswers(s.delivered, DoNotRetryWithError(error));
    }
  }

  lemma RunNone(s: State)
    ensures RunEach(s, []) == s
  {
  }

  lemma NoAnswers(delivered: seq<(Id, Outcome)>, answer: Outcome)
    ensures delivered + Answers([], answer) == delivered
  {
  }

  /** A call of `adapt` from the queue, with its completion. */
  function QueuedAdapt(s: State, id: Id, r: Reading): State {
    var (t, answer) := AdaptInsideLock(s, id, r.stale, r.check, r.stamp);
    if answer.None? then t else t.(delivered := t.delivered + [(id, answer.value)])
  }

  /** Several of them, one after the other. */
  function AdaptEach(s: State, ids: seq<Id>, readings: seq<Reading>): State
    requires |ids| <= |readings|
    decreases |ids|
  {
    if ids == [] then s else AdaptEach(QueuedAdapt(s, ids[0], readings[0]), ids[1..], readings[1..])
  }

  /** Adapting only adds to the end of the queue. */
  lemma AdaptUnder(s: State, b: Block, rest: seq<Block>, id: Id, r: Reading)
    ensures var (t, answer) := AdaptInsideLock(s.(queue := rest), id, r.stale, r.check, r.stamp);
            AdaptInsideLock(s.(queue := [b] + rest), id, r.stale, r.check, r.stamp)
              == (t.(queue := [b] + t.queue), answer)
  {
    if !s.isRefreshing && s.credential.Some? && r.stale {
      var adapts := s.adaptOperations + [id];
      assert [b] + rest + [StartRefresh(s.credential.value)] == [b] + (rest + [StartRefresh(s.credential.value)]);
      assert [b] + rest + [FailAll(adapts, s.requestsToRetry, ExcessiveRefresh)]
          == [b] + (rest + [FailAll(adapts, s.requestsToRetry, ExcessiveRefresh)]);
    }
  }

  lemma RunAdapt(s: State, adapts: seq<Id>, retries: seq<Id>, rest: seq<Block>, r: Reading)
    requires s.queue == [ResumeAll(adapts, retries)] + rest && adapts != []
    ensures var t := QueuedAdapt(s.(queue := rest), adapts[0], r);
            RunCall(s, r) == t.(queue := [ResumeAll(adapts[1..], retries)] + t.queue)
  {
    hide AdaptInsideLock;
    var b := ResumeAll(adapts[1..], retries);
    assert s.queue[1..] == rest;
    AdaptUnder(s, b, rest, adapts[0], r);
    var (t, answer) := AdaptInsideLock(s.(queue := rest), adapts[0], r.stale, r.check, r.stamp);
    var queue := [Finish(adapts[0], answer)] + ([b] + t.queue);
    assert RunHead(s, r.stale, r.check, r.stamp) == t.(queue := queue);
    assert queue[1..] == [b] + t.queue;
  }

  /** A successful refresh's block adapts every waiting request, each with its completion, in order, and
      then tells every waiting retry to retry, in order. */
  lemma {:induction false} ResumeAllDrains(s: State, adapts: seq<Id>, retries: seq<Id>, rest: seq<Block>,
                                           readings: seq<Reading>)
    requires s.queue == [ResumeAll(adapts, retries)] + rest && |readings| == |adapts| + |retries| + 1
    ensures var adapted := AdaptEach(s.(queue := rest), adapts, readings);
            RunEach(s, readings) == adapted.(delivered := adapted.delivered + Answers(retries, Retry))
    decreases |adapts|
  {
    hide RunCall, QueuedAdapt;
    if adapts == [] {
      RetriesResume(s, retries, rest, readings);
    } else {
      var b, t := ResumeAll(adapts[1..], retries), QueuedAdapt(s.(queue := rest), adapts[0], readings[0]);
      RunAdapt(s, adapts, retries, rest, readings[0]);
      RunOnce(s, readings);
      ResumeAllDrains(t.(queue := [b] + t.queue), adapts[1..], retries, t.queue, readings[1..]);
      assert t.(queue := [b] + t.queue).(queue := t.queue) == t;
    }
  }

  lemma {:induction false} RetriesResume(s: State, retries: seq<Id>, rest: seq<Block>, readings: seq<Reading>)
    requires s.queue == [ResumeAll([], retries)] + rest && |readings| == |retries| + 1
    ensures RunEach(s, readings) == s.(queue := rest, delivered := s.delivered + Answers(retries, Retry))
    decreases |retries|
  {
    hide RunEach, Answers;
    RunOnce(s, readings);
    var s' := RunCall(s, readings[0]);
    assert s.queue[1..] == rest;
    if retries != [] {
      assert s' == s.(queue := [ResumeAll([], retries[1..])] + rest, delivered := s.delivered + [(retries[0], Retry)]);
      AnswersHead(retries, Retry);
      RetriesResume(s', retries[1..], rest, readings[1..]);
      assert s'.delivered + Answers(retries[1..], Retry) == s.delivered + Answers(retries, Retry);
    } else {
      RunNone(s');
      NoAnswers(s.delivered, Retry);
    }
  }

  /** No refresh can start: calls are deferred during one, refused without a credential, and otherwise, as
      long as the credential is fresh, given the current credential. */
  lemma {:induction false} AdaptsSettle(s: State, ids: seq<Id>, readings: seq<Reading>)
    requires |ids| <= |readings|
    requires s.isRefreshing || s.credential.None? || forall i :: 0 <= i < |ids| ==> !readings[i].stale
    ensures AdaptEach(s, ids, readings)
         == if s.isRefreshing then s.(adaptOperations := s.adaptOperations + ids)
            else s.(delivered := s.delivered + Answers(ids, FreshAnswer(s)))
    decreases |ids|
  {
    hide Answers, RunEach;
    if ids == [] {
      NoAnswers(s.delivered, FreshAnswer(s));
      assert s.adaptOperations + ids == s.adaptOperations;
    } else {
      var t := QueuedAdapt(s, ids[0], readings[0]);
      AdaptsSettle(t, ids[1..], readings[1..]);
      AnswersHead(ids, FreshAnswer(s));
      assert s.adaptOperations + [ids[0]] + ids[1..] == s.adaptOperations + ids;
      assert s.delivered + [(ids[0], FreshAnswer(s))] + Answers(ids[1..], FreshAnswer(s))
          == s.delivered + Answers(ids, FreshAnswer(s));
    }
  }

  /** The answer of `adapt` outside a refresh, unless the credential is stale. */
  function FreshAnswer(s: State): Outcome {
    if s.credential.None? then NotAdapted(MissingCredential) else Adapted(s.credential.value)
  }

  lemma {:induction false} AdaptEachSplits(s: State, ids: seq<Id>, readings: seq<Reading>, k: nat)
    requires k <= |ids| <= |readings|
    ensures AdaptEach(s, ids, readings)
         == AdaptEach(AdaptEach(s, ids[..k], readings), ids[k..], readings[k..])
    decreases k
  {
    hide QueuedAdapt;
    if k == 0 {
      assert ids[..0] == [] && ids[0..] == ids && readings[0..] == readings;
    } else {
      assert ids[..k] != [] && ids[..k][1..] == ids[1..][..k - 1];
      assert ids[1..][k - 1..] == ids[k..] && readings[1..][k - 1..] == readings[k..];
      AdaptEachSplits(QueuedAdapt(s, ids[0], readings[0]), ids[1..], readings[1..], k - 1);
    }
  }

  /** A stale credential with the window used up: the call fails, together with all that waits. */
  function Exhausted(s: State, id: Id): State {
    s.(adaptOperations := [], requestsToRetry := [],
       queue := s.queue + [FailAll(s.adaptOperations + [id], s.requestsToRetry, ExcessiveRefresh)])
  }

  /** A stale credential otherwise: a refresh starts, and the calls wait for it. */
  function Started(s: State, ids: seq<Id>, stamp: Time): State
    requires s.credential.Some?
  {
    s.(adaptOperations := s.adaptOperations + ids, isRefreshing := true,
       refreshTimestamps := s.refreshTimestamps + [stamp], queue := s.queue + [StartRefresh(s.credential.value)])
  }

  lemma StaleAdapt(s: State, id: Id, r: Reading)
    requires r.stale && !s.isRefreshing && s.credential.Some?
    ensures QueuedAdapt(s, id, r)
         == if IsRefreshExcessive(s, r.check) then Exhausted(s, id) else Started(s, [id], r.stamp)
  {
    SameWindow(s, s.(adaptOperations := s.adaptOperations + [id]), r.check);
  }

  lemma AdaptEachFirst(s: State, ids: seq<Id>, readings: seq<Reading>)
    requires 0 < |ids| <= |readings|
    ensures AdaptEach(s, ids, readings) == AdaptEach(QueuedAdapt(s, ids[0], readings[0]), ids[1..], readings[1..])
  {
    hide QueuedAdapt;
  }

  /** A list of calls that starts stale. */
  lemma AdaptsFromStale(s: State, ids: seq<Id>, readings: seq<Reading>)
    requires 0 < |ids| <= |readings| && readings[0].stale && !s.isRefreshing && s.credential.Some?
    ensures AdaptEach(s, ids, readings)
         == if IsRefreshExcessive(s, readings[0].check) then AdaptEach(Exhausted(s, ids[0]), ids[1..], readings[1..])
            else Started(s, ids, readings[0].stamp)
  {
    hide IsRefreshExcessive, QueuedAdapt, AdaptEach;
    AdaptEachFirst(s, ids, readings);
    StaleAdapt(s, ids[0], readings[0]);
    if !IsRefreshExcessive(s, readings[0].check) {
      AdaptsSettle(Started(s, [ids[0]], readings[0].stamp), ids[1..], readings[1..]);
      assert s.adaptOperations + [ids[0]] + ids[1..] == s.adaptOperations + ids;
    }
  }

  /** A list of calls that turns stale at call k: the calls before it are given the current credential. If
      the window allows it, a refresh starts and all the others wait for it. Otherwise call k fails
      together with all that waits, and the list goes on after it. */
  lemma AdaptsSplit(s: State, ids: seq<Id>, readings: seq<Reading>, k: nat)
    requires k < |ids| <= |readings| && !s.isRefreshing && s.credential.Some?
    requires readings[k].stale && forall i :: 0 <= i < k ==> !readings[i].stale
    ensures var t := s.(delivered := s.delivered + Answers(ids[..k], Adapted(s.credential.value)));
            AdaptEach(s, ids, readings)
              == if IsRefreshExcessive(s, readings[k].check)
                   then AdaptEach(Exhausted(t, ids[k]), ids[k + 1..], readings[k + 1..])
                 else Started(t, ids[k..], readings[k].stamp)
  {
    hide IsRefreshExcessive, Answers, QueuedAdapt, AdaptEach, Exhausted, Started;
    var t := s.(delivered := s.delivered + Answers(ids[..k], Adapted(s.credential.value)));
    var rest, after := ids[k..], readings[k..];
    assert rest[0] == ids[k] && rest[1..] == ids[k + 1..] && after[0] == readings[k] && after[1..] == readings[k + 1..];
    AdaptEachSplits(s, ids, readings, k);
    AdaptsSettle(s, ids[..k], readings);
    AdaptsFromStale(t, rest, after);
    SameWindow(s, t, readings[k].check);
  }

  lemma SameWindow(s: State, t: State, check: Time)
    requires s.refreshWindow == t.refreshWindow && s.refreshTimestamps == t.refreshTimestamps
    ensures IsRefreshExcessive(s, check) == IsRefreshExcessive(t, check)
  {
  }
}
