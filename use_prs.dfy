/**
 * The list-fetching hook as a sequential state machine. Every effect run gets
 * its own `cancelled` flag, set by the cleanup that runs before the next
 * effect run or at unmount; a response for a run whose flag is set changes
 * nothing. Promise callbacks are events processed one at a time: `Resolve` is
 * a `then` followed by its `finally`, `Reject` a `catch` followed by its
 * `finally`.
 */
module UsePRs {
  import opened Wrappers
  import opened PRModel

  class FetchHook {
    var data: Option<PRListResponse>
    var loading: bool
    var error: Option<string>
    /** `cancelled[run]` is the flag captured by effect run `run`, in start order. */
    var cancelled: seq<bool>
    var mounted: bool

    /**
     * A run's flag is set exactly when a later run has started or the hook is
     * unmounted: the flags are a generation counter (`|cancelled|`) and an
     * alive flag seen run by run.
     */
    predicate Valid()
      reads this
    {
      forall run :: 0 <= run < |cancelled| ==> (cancelled[run] <==> run + 1 < |cancelled| || !mounted)
    }

    /** Whether run `run` is the latest one and the hook is still mounted. */
    predicate Current(run: nat)
      reads this
    {
      run + 1 == |cancelled| && mounted
    }

    /** The initial `useState` values, before any effect run. */
    constructor()
      ensures Valid() && mounted && cancelled == []
      ensures data == None && !loading && error == None
    {
      data := None;
      loading := false;
      error := None;
      cancelled := [];
      mounted := true;
    }

    /**
     * An effect run (on mount, on a change of any query input or of the refresh
     * key): the cleanup of the previous run sets its flag, then the new run
     * starts loading with the error cleared and the old data kept on screen.
     */
    method Start() returns (run: nat)
      requires Valid() && mounted
      modifies this
      ensures Valid() && mounted && Current(run)
      ensures run == |old(cancelled)|
      ensures forall r :: 0 <= r < run ==> cancelled[r]
      ensures loading && error == None && data == old(data)
    {
      if |cancelled| > 0 {
        cancelled := cancelled[|cancelled| - 1 := true];
      }
      run := |cancelled|;
      cancelled := cancelled + [false];
      loading := true;
      error := None;
    }

    /** Run `run` delivered `res`. */
    method Resolve(run: nat, res: PRListResponse)
      requires Valid() && run < |cancelled|
      modifies this
      ensures Valid() && cancelled == old(cancelled) && mounted == old(mounted)
      ensures error == old(error)
      ensures old(Current(run)) ==> data == Some(res) && !loading
      ensures !old(Current(run)) ==> data == old(data) && loading == old(loading)
    {
      if !cancelled[run] {
        data := Some(res);
      }
      if !cancelled[run] {
        loading := false;
      }
    }

    /** Run `run` failed with message `msg`. */
    method Reject(run: nat, msg: string)
      requires Valid() && run < |cancelled|
      modifies this
      ensures Valid() && cancelled == old(cancelled) && mounted == old(mounted)
      ensures data == old(data)
      ensures old(Current(run)) ==> error == Some(msg) && !loading
      ensures !old(Current(run)) ==> error == old(error) && loading == old(loading)
    {
      if !cancelled[run] {
        error := Some(msg);
      }
      if !cancelled[run] {
        loading := false;
      }
    }

    /** The component goes away: the cleanup of the last run sets its flag. */
    method Unmount()
      requires Valid()
      modifies this
      ensures Valid() && !mounted && |cancelled| == |old(cancelled)|
      ensures forall run :: 0 <= run < |cancelled| ==> cancelled[run] && !Current(run)
      ensures data == old(data) && loading == old(loading) && error == old(error)
    {
      if |cancelled| > 0 {
        cancelled := cancelled[|cancelled| - 1 := true];
      }
      mounted := false;
    }
  }

  /**
   * The refresh key is bumped only when clearing the cache succeeded, and a
   * bump is one more effect run.
   */
  method RefreshAfterClearCache(h: FetchHook, cleared: bool) returns (run: Option<nat>)
    requires h.Valid() && h.mounted
    modifies h
    ensures h.Valid() && h.mounted
    ensures cleared ==> run.Some? && h.Current(run.value) && h.loading && h.error == None
    ensures !cleared ==> run == None && h.cancelled == old(h.cancelled) && h.loading == old(h.loading) && h.error == old(h.error)
    ensures h.data == old(h.data)
  {
    if cleared {
      var r := h.Start();
      run := Some(r);
    } else {
      run := None;
    }
  }

  /**
   * Filters change while the first request is still out; the first response
   * arrives last and is dropped, so the table shows the second response.
   */
  method SlowFirstResponseIsDropped(first: PRListResponse, second: PRListResponse)
    returns (shown: Option<PRListResponse>, busy: bool, failure: Option<string>)
    ensures shown == Some(second) && !busy && failure == None
  {
    var h := new FetchHook();
    var a := h.Start();
    var b := h.Start();
    h.Resolve(b, second);
    h.Resolve(a, first);
    h.Reject(a, "API error: 500 Internal Server Error");
    shown, busy, failure := h.data, h.loading, h.error;
  }

  /**
   * A stale response that arrives before the current one changes nothing: the
   * old data stays and loading goes on.
   */
  method StaleResponseKeepsLoading(old1: PRListResponse, first: PRListResponse)
    returns (shown: Option<PRListResponse>, busy: bool)
    ensures shown == Some(old1) && busy
  {
    var h := new FetchHook();
    var a := h.Start();
    h.Resolve(a, old1);
    var b := h.Start();
    var c := h.Start();
    h.Resolve(b, first);
    shown, busy := h.data, h.loading;
  }

  /**
   * A failure keeps the previous data and shows the message; the next run
   * clears the message and loads again, still showing the previous data.
   */
  method FailureThenRetry(prev: PRListResponse, msg: string)
    returns (afterFailure: Option<string>, afterRetry: Option<string>, shown: Option<PRListResponse>, busy: bool)
    ensures afterFailure == Some(msg) && afterRetry == None && shown == Some(prev) && busy
  {
    var h := new FetchHook();
    var a := h.Start();
    h.Resolve(a, prev);
    var b := h.Start();
    h.Reject(b, msg);
    afterFailure := h.error;
    var c := h.Start();
    afterRetry, shown, busy := h.error, h.data, h.loading;
  }

  /** After unmount, a pending response changes nothing. */
  method ResponseAfterUnmount(res: PRListResponse) returns (shown: Option<PRListResponse>, busy: bool)
    ensures shown == None && busy
  {
    var h := new FetchHook();
    var a := h.Start();
    h.Unmount();
    h.Resolve(a, res);
    shown, busy := h.data, h.loading;
  }
}
