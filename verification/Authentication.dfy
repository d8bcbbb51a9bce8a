/** The authentication interceptor: the methods that update its lock-protected state, and the queue and
    completion steps, proved to be the steps of the model. */
module Authentication {
  import opened Words
  import M = AuthenticationModel
  import opened AuthenticationModel

  class AuthenticationInterceptor {
    var credential: Option<Credential>
    var isRefreshing: bool
    var refreshTimestamps: seq<Time>
    var refreshWindow: Option<Window>
    var adaptOperations: seq<Id>
    var requestsToRetry: seq<Id>
    /** Outside the lock: the serial queue, the authenticator, and calls between their steps. */
    var queue: seq<Block>
    var outstanding: nat
    var arriving: seq<(Id, Credential)>
    var returning: seq<(Id, Outcome)>
    var delivered: seq<(Id, Outcome)>
    ghost var issued: set<Id>
    ghost var now: Time

    ghost function Snapshot(): State
      reads this
    {
      State(credential, isRefreshing, refreshTimestamps, refreshWindow, adaptOperations, requestsToRetry,
            queue, outstanding, arriving, returning, delivered, issued, now)
    }

    /** At most one refresh, exactly while refreshing; every call in one place; the window kept. */
    ghost predicate Valid()
      reads this
    {
      Safe(Snapshot())
    }

    constructor (credential: Option<Credential>, refreshWindow: Option<Window>, ghost now: Time)
      ensures Valid()
      ensures Snapshot() == Initial(credential, refreshWindow, now)
    {
      this.credential, this.refreshWindow := credential, refreshWindow;
      isRefreshing, refreshTimestamps := false, [];
      adaptOperations, requestsToRetry := [], [];
      queue, outstanding := [], 0;
      arriving, returning, delivered := [], [], [];
      issued, this.now := {}, now;
      SafeInitially(credential, refreshWindow, now);
    }

    // ---- private, inside the lock -------------------------------------------------------------

    /** Counts the timestamps inside the window that ends at the clock reading. */
    method IsRefreshExcessive(check: Time) returns (excessive: bool)
      ensures excessive == M.IsRefreshExcessive(Snapshot(), check)
    {
      if refreshWindow.None? {
        return false;
      }
      var windowMin := check - refreshWindow.value.interval;
      var attempts: nat := 0;
      for i := 0 to |refreshTimestamps|
        invariant attempts + AttemptsSince(refreshTimestamps[i..], windowMin)
               == AttemptsSince(refreshTimestamps, windowMin)
      {
        assert refreshTimestamps[i..][1..] == refreshTimestamps[i + 1..];
        if windowMin <= refreshTimestamps[i] {
          attempts := attempts + 1;
        }
      }
      excessive := attempts >= refreshWindow.value.maximumAttempts;
    }

    method HandleRefreshSuccess(newCredential: Credential)
      modifies this
      ensures Snapshot() == M.HandleRefreshSuccess(old(Snapshot()), newCredential)
    {
      credential := Some(newCredential);
      var adapts, retries := adaptOperations, requestsToRetry;
      adaptOperations, requestsToRetry := [], [];
      isRefreshing := false;
      queue := queue + [ResumeAll(adapts, retries)];
    }

    method HandleRefreshFailure(error: AuthError)
      modifies this
      ensures Snapshot() == M.HandleRefreshFailure(old(Snapshot()), error)
    {
      var adapts, retries := adaptOperations, requestsToRetry;
      adaptOperations, requestsToRetry := [], [];
      isRefreshing := false;
      queue := queue + [FailAll(adapts, retries, error)];
    }

    method Refresh(current: Credential, check: Time, stamp: Time)
      modifies this
      ensures Snapshot() == M.Refresh(old(Snapshot()), current, check, stamp)
    {
      var excessive := IsRefreshExcessive(check);
      if excessive {
        HandleRefreshFailure(ExcessiveRefresh);
        return;
      }
      refreshTimestamps := refreshTimestamps + [stamp];
      isRefreshing := true;
      queue := queue + [StartRefresh(current)];
    }

    // ---- adapt and retry ------------------------------------------------------------------------

    /** The lock block of `adapt`: an answer, or none if the call is deferred. */
    method AdaptInsideLock(id: Id, stale: bool, check: Time, stamp: Time) returns (answer: Option<Outcome>)
      modifies this
      ensures (Snapshot(), answer) == M.AdaptInsideLock(old(Snapshot()), id, stale, check, stamp)
    {
      if isRefreshing {
        adaptOperations := adaptOperations + [id];
        return None;
      }
      if credential.None? {
        return Some(NotAdapted(MissingCredential));
      }
      if stale {
        adaptOperations := adaptOperations + [id];
        Refresh(credential.value, check, stamp);
        return None;
      }
      answer := Some(Adapted(credential.value));
    }

    /** A call that is not deferred then owes its completion. */
    method Adapt(id: Id, stale: bool, check: Time, stamp: Time)
      requires Valid() && Enabled(Snapshot(), CallAdapt(id, stale, check, stamp))
      modifies this
      ensures Valid()
      ensures Snapshot() == Next(old(Snapshot()), CallAdapt(id, stale, check, stamp))
    {
      SafeKept(Snapshot(), CallAdapt(id, stale, check, stamp));
      hide Safe;
      issued := issued + {id};
      var answer := AdaptInsideLock(id, stale, check, stamp);
      if answer.Some? {
        returning := returning + [(id, answer.value)];
      }
      now := stamp;
    }

    /** `retry` up to the lock: the checks that need no lock, and the read of the credential. */
    method RetryRead(id: Id, authError: bool, current: bool)
      requires Valid() && Enabled(Snapshot(), CallRetry(id, authError, current))
      modifies this
      ensures Valid()
      ensures Snapshot() == Next(old(Snapshot()), CallRetry(id, authError, current))
    {
      SafeKept(Snapshot(), CallRetry(id, authError, current));
      hide Safe;
      issued := issued + {id};
      if !authError {
        returning := returning + [(id, DoNotRetry)];
        return;
      }
      if credential.None? {
        returning := returning + [(id, DoNotRetryWithError(MissingCredential))];
        return;
      }
      if !current {
        returning := returning + [(id, Retry)];
        return;
      }
      arriving := arriving + [(id, credential.value)];
    }

    /** The lock block of `retry`, with the credential read earlier. */
    method RetryLock(k: nat, check: Time, stamp: Time)
      requires Valid() && Enabled(Snapshot(), LockRetry(k, check, stamp))
      modifies this
      ensures Valid()
      ensures Snapshot() == Next(old(Snapshot()), LockRetry(k, check, stamp))
    {
      SafeKept(Snapshot(), LockRetry(k, check, stamp));
      hide Safe;
      var (id, current) := arriving[k];
      arriving := Remove(arriving, k);
      requestsToRetry := requestsToRetry + [id];
      if !isRefreshing {
        Refresh(current, check, stamp);
      }
      now := stamp;
    }

    // ---- outside the lock -------------------------------------------------------------------------

    /** A call that left the lock calls its completion. */
    method Complete(k: nat)
      requires Valid() && Enabled(Snapshot(), Return(k))
      modifies this
      ensures Valid()
      ensures Snapshot() == Next(old(Snapshot()), Return(k))
    {
      SafeKept(Snapshot(), Return(k));
      hide Safe;
      var call := returning[k];
      returning := Remove(returning, k);
      delivered := delivered + [call];
    }

    method RunHeadBlock(stale: bool, check: Time, stamp: Time)
      requires queue != []
      modifies this
      ensures Snapshot() == RunHead(old(Snapshot()), stale, check, stamp)
    {
      var block := queue[0];
      queue := queue[1..];
      match block {
        case StartRefresh(_) => outstanding := outstanding + 1;
        case Finish(id, answer) =>
          if answer.Some? {
            delivered := delivered + [(id, answer.value)];
          }
        case ResumeAll(adapts, retries) =>
          if adapts != [] {
            queue := [ResumeAll(adapts[1..], retries)] + queue;
            var answer := AdaptInsideLock(adapts[0], stale, check, stamp);
            queue := [Finish(adapts[0], answer)] + queue;
          } else if retries != [] {
            queue := [ResumeAll([], retries[1..])] + queue;
            delivered := delivered + [(retries[0], Retry)];
          }
        case FailAll(adapts, retries, error) =>
          if adapts != [] {
            queue := [FailAll(adapts[1..], retries, error)] + queue;
            delivered := delivered + [(adapts[0], NotAdapted(error))];
          } else if retries != [] {
            queue := [FailAll([], retries[1..], error)] + queue;
            delivered := delivered + [(retries[0], DoNotRetryWithError(error))];
          }
      }
    }

    /** One action of the block at the head of the serial queue. */
    method RunQueueStep(stale: bool, check: Time, stamp: Time)
      requires Valid() && Enabled(Snapshot(), RunQueue(stale, check, stamp))
      modifies this
      ensures Valid()
      ensures Snapshot() == Next(old(Snapshot()), RunQueue(stale, check, stamp))
    {
      SafeKept(Snapshot(), RunQueue(stale, check, stamp));
      hide Safe, RunHead;
      RunHeadBlock(stale, check, stamp);
      now := stamp;
    }

    /** The authenticator completes a refresh. */
    method RefreshCompleted(result: Option<Credential>, code: int)
      requires Valid() && Enabled(Snapshot(), CompleteRefresh(result, code))
      modifies this
      ensures Valid()
      ensures Snapshot() == Next(old(Snapshot()), CompleteRefresh(result, code))
    {
      SafeKept(Snapshot(), CompleteRefresh(result, code));
      hide Safe;
      outstanding := outstanding - 1;
      if result.Some? {
        HandleRefreshSuccess(result.value);
      } else {
        HandleRefreshFailure(RefreshFailed(code));
      }
    }
  }
}
