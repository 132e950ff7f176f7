/** Which requests get cancelled over a whole run of a connection (src/connection.rs `route`, `cancel_incoming`,
    `handle_shutdown`; src/request_queue.rs `IncomingRequests`): the bookkeeping on values, and what it amounts to
    in terms of the run alone. */
module Cancellation {
  import opened Messages

  // What a connection is told, in order. `CancelAsked` is a `$/cancelRequest` or a call of `cancel_incoming`.
  datatype Event =
    | Routed(id: RequestId)
    | CancelAsked(id: RequestId)
    | Completed(id: RequestId)
    | ShutDown
    | Unrelated

  // The table of pending requests, and which tokens are cancelled. A token is named by the position of the event
  // that routed its request.
  datatype Table = Table(pending: map<RequestId, nat>, cancelled: set<nat>, shutdown: bool)

  function Step(t: Table, e: Event, k: nat): Table {
    match e
    case Routed(id) => t.(pending := t.pending[id := k])
    case CancelAsked(id) => if id in t.pending then t.(cancelled := t.cancelled + {t.pending[id]}) else t
    case Completed(id) => t.(pending := t.pending - {id})
    case ShutDown => t.(shutdown := true)
    case Unrelated => t
  }

  function TableAfter(run: seq<Event>): Table {
    if run == [] then Table(map[], {}, false)
    else
      var k := |run| - 1;
      Step(TableAfter(run[..k]), run[k], k)
  }

  lemma TableAfterOneMore(run: seq<Event>, e: Event)
    ensures TableAfter(run + [e]) == Step(TableAfter(run), e, |run|)
  {
    assert (run + [e])[..|run|] == run;
  }

  /** The token of the request routed at `k` is cancelled: itself, or through the shutdown token above it. */
  predicate TokenCancelled(t: Table, k: nat) { k in t.cancelled || t.shutdown }

  /** From `k` up to `j` the id has been neither completed nor registered anew. */
  ghost predicate StillPending(run: seq<Event>, k: nat, j: nat, id: RequestId)
    requires k < |run| && j <= |run|
  {
    k < j && forall m | k < m < j :: run[m] != Completed(id) && run[m] != Routed(id)
  }

  ghost predicate CancelReached(run: seq<Event>, k: nat)
    requires k < |run| && run[k].Routed?
  {
    exists j: nat :: k < j < |run| && run[j] == CancelAsked(run[k].id) && StillPending(run, k, j, run[k].id)
  }

  lemma {:induction false} PendingIff(run: seq<Event>, k: nat, id: RequestId)
    requires k < |run|
    ensures id in TableAfter(run).pending && TableAfter(run).pending[id] == k
            <==> run[k] == Routed(id) && StillPending(run, k, |run|, id)
    decreases |run|
  {
    var n := |run| - 1;
    var before, last := run[..n], run[n];
    PendingBound(before);
    if k < n {
      PendingIff(before, k, id);
      assert StillPending(run, k, |run|, id) <==>
             StillPending(before, k, n, id) && last != Completed(id) && last != Routed(id);
    }
  }

  lemma {:induction false} PendingBound(run: seq<Event>)
    ensures forall id | id in TableAfter(run).pending :: TableAfter(run).pending[id] < |run|
    ensures forall k | k in TableAfter(run).cancelled :: k < |run|
  {
    if run != [] {
      PendingBound(run[..|run| - 1]);
    }
  }

  lemma {:induction false} CancelledIff(run: seq<Event>, k: nat)
    requires k < |run| && run[k].Routed?
    ensures k in TableAfter(run).cancelled <==> CancelReached(run, k)
    decreases |run|
  {
    var n := |run| - 1;
    var before, last, id := run[..n], run[n], run[k].id;
    PendingBound(before);
    if k < n {
      CancelledIff(before, k);
      PendingIff(before, k, id);
      forall j | k < j < n ensures StillPending(run, k, j, id) <==> StillPending(before, k, j, id) {}
      assert StillPending(run, k, n, id) <==> StillPending(before, k, n, id);
      if last.CancelAsked? && last.id != id && last.id in TableAfter(before).pending {
        PendingIff(before, TableAfter(before).pending[last.id], last.id);
      }
      if CancelReached(before, k) {
        var j: nat :| k < j < n && before[j] == CancelAsked(id) && StillPending(before, k, j, id);
        assert run[j] == CancelAsked(id) && StillPending(run, k, j, id);
      }
      if CancelReached(run, k) {
        var j: nat :| k < j < |run| && run[j] == CancelAsked(id) && StillPending(run, k, j, id);
        assert j < n ==> before[j] == CancelAsked(id) && StillPending(before, k, j, id);
      }
    }
  }

  lemma {:induction false} ShutdownIff(run: seq<Event>)
    ensures TableAfter(run).shutdown <==> ShutDown in run
  {
    if run != [] {
      var n := |run| - 1;
      ShutdownIff(run[..n]);
      assert run == run[..n] + [run[n]];
    }
  }

  /** The token handed out with the request routed at `k` is cancelled at the end of a run exactly when the run
      holds a shutdown, or a cancellation of that id that follows with no completion or new registration of the id
      in between. */
  lemma CancellationTrace(run: seq<Event>, k: nat)
    requires k < |run| && run[k].Routed?
    ensures TokenCancelled(TableAfter(run), k) <==> ShutDown in run || CancelReached(run, k)
    ensures CancelReached(run, k) <==>
            exists j: nat :: k < j < |run| && run[j] == CancelAsked(run[k].id)
                             && forall m | k < m < j :: run[m] != Completed(run[k].id) && run[m] != Routed(run[k].id)
  {
    CancelledIff(run, k);
    ShutdownIff(run);
    if CancelReached(run, k) {
      var j: nat :| k < j < |run| && run[j] == CancelAsked(run[k].id) && StillPending(run, k, j, run[k].id);
      assert run[j] == CancelAsked(run[k].id);
    }
    forall j: nat | k < j < |run| && run[j] == CancelAsked(run[k].id)
                    && forall m | k < m < j :: run[m] != Completed(run[k].id) && run[m] != Routed(run[k].id)
      ensures CancelReached(run, k)
    {
      assert StillPending(run, k, j, run[k].id);
    }
  }
}
