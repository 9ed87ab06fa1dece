/**
 * `comparisonReducer` of the client (client/src/reducers/comparisonReducer.ts):
 * comparison mode on or off, and the ids of the workflows picked for
 * comparison, at most four of them.
 */
module ComparisonReducer {

  datatype ComparisonState = ComparisonState(isComparing: bool, selectedWorkflowIds: seq<string>)

  /** The three actions, and any other object dispatched to the reducer. */
  datatype ComparisonAction =
    | EnterComparisonMode
    | ExitComparisonMode
    | ToggleWorkflowSelection(payload: string)
    | Unknown

  const MaxSelections: nat := 4

  predicate NoDuplicates(ids: seq<string>)
  {
    forall i, j :: 0 <= i < j < |ids| ==> ids[i] != ids[j]
  }

  /** What every reachable state satisfies. */
  predicate Valid(s: ComparisonState)
  {
    |s.selectedWorkflowIds| <= MaxSelections && NoDuplicates(s.selectedWorkflowIds)
  }

  /** `ids.filter(workflowId => workflowId !== id)`. */
  function Without(ids: seq<string>, id: string): (r: seq<string>)
    ensures |r| <= |ids|
    ensures forall x :: x in r <==> x in ids && x != id
  {
    if ids == [] then []
    else if ids[0] == id then Without(ids[1..], id)
    else [ids[0]] + Without(ids[1..], id)
  }

  function Reduce(state: ComparisonState, action: ComparisonAction): (r: ComparisonState)
    ensures action.EnterComparisonMode? ==> r.isComparing && r.selectedWorkflowIds == []
    ensures action.ExitComparisonMode? ==> !r.isComparing && r.selectedWorkflowIds == []
    ensures action.ToggleWorkflowSelection? ==> r.isComparing == state.isComparing
    ensures action.ToggleWorkflowSelection? ==>
      (action.payload in r.selectedWorkflowIds <==>
        action.payload !in state.selectedWorkflowIds && |state.selectedWorkflowIds| < MaxSelections)
    ensures action.ToggleWorkflowSelection? ==>
      forall x :: x != action.payload ==> (x in r.selectedWorkflowIds <==> x in state.selectedWorkflowIds)
    ensures action.ToggleWorkflowSelection? && action.payload in state.selectedWorkflowIds ==>
      r.selectedWorkflowIds == Without(state.selectedWorkflowIds, action.payload)
    ensures action.ToggleWorkflowSelection? && action.payload !in state.selectedWorkflowIds ==>
      (|state.selectedWorkflowIds| < MaxSelections ==>
         r.selectedWorkflowIds == state.selectedWorkflowIds + [action.payload])
      && (|state.selectedWorkflowIds| >= MaxSelections ==> r == state)
    ensures action.Unknown? ==> r == state
  {
    match action
    case EnterComparisonMode => state.(isComparing := true, selectedWorkflowIds := [])
    case ExitComparisonMode => ComparisonState(false, [])
    case ToggleWorkflowSelection(id) =>
      if id in state.selectedWorkflowIds then state.(selectedWorkflowIds := Without(state.selectedWorkflowIds, id))
      else if |state.selectedWorkflowIds| >= MaxSelections then state
      else state.(selectedWorkflowIds := state.selectedWorkflowIds + [id])
    case Unknown => state
  }

  /** Every action keeps the selection within the cap and free of duplicates. */
  lemma ReduceKeepsValid(state: ComparisonState, action: ComparisonAction)
    requires Valid(state)
    ensures Valid(Reduce(state, action))
  {
    if action.ToggleWorkflowSelection? {
      WithoutKeepsNoDuplicates(state.selectedWorkflowIds, action.payload);
    }
  }

  lemma {:induction false} WithoutKeepsNoDuplicates(ids: seq<string>, id: string)
    requires NoDuplicates(ids)
    ensures NoDuplicates(Without(ids, id))
  {
    if ids != [] {
      var tail := ids[1..];
      assert NoDuplicates(tail) by {
        assert forall k :: 0 <= k < |tail| ==> tail[k] == ids[k + 1];
      }
      WithoutKeepsNoDuplicates(tail, id);
      assert ids[0] !in tail by {
        assert forall k :: 0 <= k < |tail| ==> tail[k] == ids[k + 1];
      }
    }
  }

  /** Removing an id that is not there changes nothing. */
  lemma {:induction false} WithoutAbsent(ids: seq<string>, id: string)
    requires id !in ids
    ensures Without(ids, id) == ids
  {
    if ids != [] {
      WithoutAbsent(ids[1..], id);
      assert ids == [ids[0]] + ids[1..];
    }
  }

  /** The filter works element by element, so it distributes over concatenation. */
  lemma {:induction false} WithoutConcat(a: seq<string>, b: seq<string>, id: string)
    ensures Without(a + b, id) == Without(a, id) + Without(b, id)
  {
    if a != [] {
      assert (a + b)[0] == a[0];
      assert (a + b)[1..] == a[1..] + b;
      WithoutConcat(a[1..], b, id);
    } else {
      assert a + b == b;
    }
  }

  /**
   * Removing a selected id that occurs once keeps the others in their order:
   * the ids before it, then the ids after it.
   */
  lemma WithoutKeepsOrder(before: seq<string>, id: string, after: seq<string>)
    requires id !in before && id !in after
    ensures Without(before + [id] + after, id) == before + after
  {
    var w := before + [id];
    WithoutConcat(w, after, id);
    WithoutConcat(before, [id], id);
    assert Without([id], id) == [];
    WithoutAbsent(before, id);
    WithoutAbsent(after, id);
    assert Without(w, id) == before;
  }

  /** Toggling an unselected id twice, below the cap, restores the selection. */
  lemma ToggleTwiceRestores(state: ComparisonState, id: string)
    requires id !in state.selectedWorkflowIds && |state.selectedWorkflowIds| < MaxSelections
    ensures Reduce(Reduce(state, ToggleWorkflowSelection(id)), ToggleWorkflowSelection(id)) == state
  {
    var ids := state.selectedWorkflowIds;
    assert Reduce(state, ToggleWorkflowSelection(id)).selectedWorkflowIds == ids + [id];
    WithoutKeepsOrder(ids, id, []);
    assert ids + [id] + [] == ids + [id];
  }

  /** At the cap, toggling an unselected id returns the state as it was. */
  lemma ToggleAtCapUnchanged(state: ComparisonState, id: string)
    requires id !in state.selectedWorkflowIds && |state.selectedWorkflowIds| >= MaxSelections
    ensures Reduce(state, ToggleWorkflowSelection(id)) == state
  {
  }
}
