/**
 * libeos-payg/multi-task.c: a task that returns once a counter of pending
 * operations reaches zero, or as soon as the first operation fails.
 */
module MultiTask {
  import opened Integers
  import opened Wrappers

  /**
   * A task with its pending counter. `returned` lists the results handed to the
   * task so far; handing over a second one is a programming error in GLib.
   */
  datatype Task<+V, +E> = Task(pending: uint32, returned: seq<Result<V, E>>) {
    predicate HadError() {
      exists i :: 0 <= i < |returned| && returned[i].Failure?
    }
  }

  // ----- What each function does to a task -----

  function Attached<V, E>(pending: uint32): Task<V, E> {
    Task(pending, [])
  }

  function Incremented<V, E>(t: Task<V, E>): Task<V, E> {
    if t.pending == 0 || t.pending == MAX_UINT32 then t else t.(pending := t.pending + 1)
  }

  function ReturnedValue<V, E>(t: Task<V, E>, value: V): Task<V, E> {
    if t.pending == 0 then t
    else if t.pending == 1 && !t.HadError() then Task(0, t.returned + [Success(value)])
    else t.(pending := t.pending - 1)
  }

  function ReturnedError<V, E>(t: Task<V, E>, error: E): Task<V, E> {
    if t.pending == 0 then t
    else if t.HadError() then t.(pending := t.pending - 1)
    else Task(t.pending - 1, t.returned + [Failure(error)])
  }

  // ----- Any sequence of calls on one task -----

  datatype Call<+V, +E> = Increment | ReturnValue(value: V) | ReturnError(error: E)

  function Step<V, E>(t: Task<V, E>, call: Call<V, E>): Task<V, E> {
    match call
    case Increment => Incremented(t)
    case ReturnValue(value) => ReturnedValue(t, value)
    case ReturnError(error) => ReturnedError(t, error)
  }

  function Run<V, E>(pending: uint32, calls: seq<Call<V, E>>): Task<V, E> {
    if calls == [] then Attached(pending)
    else Step(Run(pending, calls[..|calls| - 1]), calls[|calls| - 1])
  }

  /** Attached operations plus increments minus returns. */
  function Balance<V, E>(pending: int, calls: seq<Call<V, E>>): int {
    if calls == [] then pending
    else Balance(pending, calls[..|calls| - 1]) + (if calls[|calls| - 1].Increment? then 1 else -1)
  }

  /** No call comes after the last pending operation has returned, and the counter never overflows. */
  ghost predicate Paired<V, E>(pending: int, calls: seq<Call<V, E>>) {
    && pending > 0
    && forall i :: 0 <= i < |calls| ==> 0 < Balance(pending, calls[..i]) < MAX_UINT32
  }

  function FirstError<V, E>(calls: seq<Call<V, E>>): Option<E> {
    if calls == [] then None
    else
      match FirstError(calls[..|calls| - 1])
      case Some(error) => Some(error)
      case None => if calls[|calls| - 1].ReturnError? then Some(calls[|calls| - 1].error) else None
  }

  /**
   * What a task returns under any interleaving: the first error as soon as it
   * is reported; without errors, the value of the last operation to finish, once
   * all have finished; never two results.
   */
  lemma {:induction false} TaskOutcome<V, E>(pending: uint32, calls: seq<Call<V, E>>)
    requires Paired(pending, calls)
    ensures var t := Run(pending, calls);
            && t.pending == Balance(pending, calls)
            && t.returned ==
                 match FirstError(calls) {
                   case Some(error) => [Failure(error)]
                   case None =>
                     if t.pending == 0 then [Success(calls[|calls| - 1].value)] else []
                 }
  {
    if calls == [] {
    } else {
      var init := calls[..|calls| - 1];
      assert forall i :: 0 <= i < |init| ==> init[..i] == calls[..i];
      TaskOutcome(pending, init);
      assert init == calls[..|init|];
      var t := Run(pending, init);
      assert t.HadError() <==> FirstError(init).Some? by {
        if FirstError(init).Some? {
          assert t.returned[0].Failure?;
        }
      }
    }
  }

  /** Without any discipline on the callers there is still at most one result, and it is never replaced. */
  lemma {:induction false} ReturnsAtMostOnce<V, E>(pending: uint32, calls: seq<Call<V, E>>, more: seq<Call<V, E>>)
    ensures |Run(pending, calls + more).returned| <= 1
    ensures Run(pending, calls).returned != [] ==>
              Run(pending, calls + more).returned == Run(pending, calls).returned
  {
    if more != [] {
      var init := more[..|more| - 1];
      ReturnsAtMostOnce(pending, calls, init);
      assert (calls + more)[..|calls + more| - 1] == calls + init;
      OnceDone(pending, calls + init);
    } else {
      assert calls + more == calls;
      OnceDone(pending, calls);
    }
  }

  /** A call moves the count by at most one, and none moves it once it has reached zero or lets it overflow. */
  lemma CountsByOne<V, E>(t: Task<V, E>, call: Call<V, E>)
    ensures var t' := Step(t, call);
            && (t.pending == 0 ==> t' == t)
            && (call.Increment? ==> t'.returned == t.returned)
            && (call.Increment? && t.pending > 0 ==> t'.pending == if t.pending < 0xFFFF_FFFF then t.pending + 1 else t.pending)
            && (!call.Increment? && t.pending > 0 ==> t'.pending == t.pending - 1)
  {
  }

  lemma {:induction false} OnceDone<V, E>(pending: uint32, calls: seq<Call<V, E>>)
    ensures var t := Run(pending, calls);
            && |t.returned| <= 1
            && (t.returned != [] ==> t.returned[0].Failure? || t.pending == 0)
  {
    if calls == [] {
    } else {
      OnceDone(pending, calls[..|calls| - 1]);
      var t := Run(pending, calls[..|calls| - 1]);
      assert t.returned != [] && t.returned[0].Failure? ==> t.HadError();
    }
  }

  // ----- Tasks whose operations only ever report true or an error -----

  /** One result at most: success exactly when nothing is pending and nothing failed. */
  predicate Sound<E>(t: Task<bool, E>) {
    && |t.returned| <= 1
    && (t.pending > 0 ==> t.returned == [] || t.returned[0].Failure?)
    && (t.pending == 0 ==> t.returned != [] && (t.returned[0].Failure? || t.returned[0] == Success(true)))
  }

  lemma ErrorIsFirst<E>(t: Task<bool, E>)
    requires |t.returned| <= 1
    ensures t.HadError() <==> t.returned != [] && t.returned[0].Failure?
  {
  }

  lemma ReturnsKeepSound<E>(t: Task<bool, E>, error: E)
    requires Sound(t) && t.pending > 0
    ensures var v := ReturnedValue(t, true);
            Sound(v) && v.pending == t.pending - 1 && (v.HadError() <==> t.HadError())
    ensures var f := ReturnedError(t, error);
            Sound(f) && f.pending == t.pending - 1 && f.HadError()
  {
    ErrorIsFirst(t);
    ErrorIsFirst(ReturnedValue(t, true));
    ErrorIsFirst(ReturnedError(t, error));
  }

  // ----- The functions themselves -----

  class MultiTask<V, E> {
    var pending: uint32
    var returned: seq<Result<V, E>>
    ghost var attached: uint32
    ghost var calls: seq<Call<V, E>>

    ghost predicate Valid()
      reads this
    {
      View() == Run(attached, calls)
    }

    ghost function View(): Task<V, E>
      reads this
    {
      Task(pending, returned)
    }

    predicate HadError()
      reads this
    {
      exists i :: 0 <= i < |returned| && returned[i].Failure?
    }

    constructor Attach(n: uint32)
      requires n > 0
      ensures Valid() && View() == Attached(n) && attached == n && calls == []
    {
      pending, returned, attached, calls := n, [], n, [];
    }

    method Increment()
      requires Valid()
      modifies this
      ensures Valid() && View() == Incremented(old(View()))
      ensures attached == old(attached) && calls == old(calls) + [Call.Increment]
    {
      calls := calls + [Call.Increment];
      assert calls[..|calls| - 1] == old(calls);
      // If it has already returned, it is too late.
      if pending > 0 && pending < MAX_UINT32 {
        pending := pending + 1;
      }
    }

    method ReturnBoolean(value: V)
      requires Valid()
      modifies this
      ensures Valid() && View() == ReturnedValue(old(View()), value)
      ensures attached == old(attached) && calls == old(calls) + [ReturnValue(value)]
    {
      calls := calls + [ReturnValue(value)];
      assert calls[..|calls| - 1] == old(calls);
      if pending > 0 {
        pending := pending - 1;
        if pending == 0 && !HadError() {
          returned := returned + [Success(value)];
        }
      }
    }

    /**
     * Takes ownership of the value: either the task returns it or it is
     * destroyed here, unless the call came after the last operation.
     */
    method ReturnPointer(value: V) returns (destroyed: bool)
      requires Valid()
      modifies this
      ensures Valid() && View() == ReturnedValue(old(View()), value)
      ensures attached == old(attached) && calls == old(calls) + [ReturnValue(value)]
      ensures old(pending) > 0 ==> (destroyed <==> returned == old(returned))
      ensures old(pending) == 0 ==> !destroyed
    {
      calls := calls + [ReturnValue(value)];
      assert calls[..|calls| - 1] == old(calls);
      destroyed := false;
      if pending > 0 {
        pending := pending - 1;
        if pending == 0 && !HadError() {
          returned := returned + [Success(value)];
          assert |returned| == |old(returned)| + 1;
        } else {
          destroyed := true;
        }
      }
    }

    method ReturnError(error: E)
      requires Valid()
      modifies this
      ensures Valid() && View() == ReturnedError(old(View()), error)
      ensures attached == old(attached) && calls == old(calls) + [Call.ReturnError(error)]
    {
      calls := calls + [Call.ReturnError(error)];
      assert calls[..|calls| - 1] == old(calls);
      if pending > 0 {
        pending := pending - 1;
        if !HadError() {
          returned := returned + [Failure(error)];
        }
      }
    }
  }
}
