/**
 * `workflowReducer` of the client (client/src/reducers/workflowReducer.ts):
 * the list of workflows and the id of the selected one.
 */
module WorkflowReducer {
  import opened Wrappers

  datatype Stage = Draft | Configured | Evaluated

  datatype StoredFile = StoredFile(name: string, text: string)

  /** A workflow (client/src/types.ts); the optional properties are `Option`s. */
  datatype Workflow = Workflow(
    id: string,
    name: string,
    createdAt: string,
    stage: Stage,
    file: Option<StoredFile>,
    chunker: Option<string>,
    chunkingConfig: Option<map<string, real>>)

  /** A `Partial<Workflow>`: `None` is a property the patch does not carry. */
  datatype Patch = Patch(
    id: Option<string>,
    name: Option<string>,
    createdAt: Option<string>,
    stage: Option<Stage>,
    file: Option<StoredFile>,
    chunker: Option<string>,
    chunkingConfig: Option<map<string, real>>)

  datatype State = State(workflows: seq<Workflow>, selectedWorkflowId: Option<string>)

  datatype Action =
    | Init(workflows: seq<Workflow>)
    | CreateWorkflow(workflow: Workflow)
    | SelectWorkflow(selectId: Option<string>)
    | UpdateWorkflow(updateId: string, patch: Patch)
    | DeleteWorkflow(deleteId: string)
    | Unknown

  function Override<T>(patched: Option<T>, current: T): T
  {
    if patched.Some? then patched.value else current
  }

  /** `{ ...w, ...patch }`: every property the patch carries replaces the workflow's own. */
  function Merge(w: Workflow, p: Patch): (r: Workflow)
    ensures p.id.Some? ==> r.id == p.id.value
    ensures p.id.None? ==> r.id == w.id
    ensures p.name.Some? ==> r.name == p.name.value
    ensures p.name.None? ==> r.name == w.name
    ensures p.createdAt.Some? ==> r.createdAt == p.createdAt.value
    ensures p.createdAt.None? ==> r.createdAt == w.createdAt
    ensures p.stage.Some? ==> r.stage == p.stage.value
    ensures p.stage.None? ==> r.stage == w.stage
    ensures p.file.Some? ==> r.file == p.file
    ensures p.file.None? ==> r.file == w.file
    ensures p.chunker.Some? ==> r.chunker == p.chunker
    ensures p.chunker.None? ==> r.chunker == w.chunker
    ensures p.chunkingConfig.Some? ==> r.chunkingConfig == p.chunkingConfig
    ensures p.chunkingConfig.None? ==> r.chunkingConfig == w.chunkingConfig
    ensures p == Patch(None, None, None, None, None, None, None) ==> r == w
  {
    Workflow(
      Override(p.id, w.id),
      Override(p.name, w.name),
      Override(p.createdAt, w.createdAt),
      Override(p.stage, w.stage),
      if p.file.Some? then p.file else w.file,
      if p.chunker.Some? then p.chunker else w.chunker,
      if p.chunkingConfig.Some? then p.chunkingConfig else w.chunkingConfig)
  }

  /** `{ ...p, ...q }`: the later patch wins wherever it carries a property. */
  function Combine(p: Patch, q: Patch): Patch
  {
    Patch(
      if q.id.Some? then q.id else p.id,
      if q.name.Some? then q.name else p.name,
      if q.createdAt.Some? then q.createdAt else p.createdAt,
      if q.stage.Some? then q.stage else p.stage,
      if q.file.Some? then q.file else p.file,
      if q.chunker.Some? then q.chunker else p.chunker,
      if q.chunkingConfig.Some? then q.chunkingConfig else p.chunkingConfig)
  }

  /** Applying two patches one after the other is applying their spread once. */
  lemma MergeTwice(w: Workflow, p: Patch, q: Patch)
    ensures Merge(Merge(w, p), q) == Merge(w, Combine(p, q))
  {
  }

  /** Applying the same patch again changes nothing. */
  lemma MergeIdempotent(w: Workflow, p: Patch)
    ensures Merge(Merge(w, p), p) == Merge(w, p)
  {
  }

  /** `workflows.map(w => w.id === id ? { ...w, ...patch } : w)`. */
  function UpdateMatching(ws: seq<Workflow>, id: string, patch: Patch): (r: seq<Workflow>)
    ensures |r| == |ws|
    ensures forall i :: 0 <= i < |ws| ==> r[i] == (if ws[i].id == id then Merge(ws[i], patch) else ws[i])
  {
    if ws == [] then []
    else [if ws[0].id == id then Merge(ws[0], patch) else ws[0]] + UpdateMatching(ws[1..], id, patch)
  }

  /** `workflows.filter(w => w.id !== id)`. */
  function Remaining(ws: seq<Workflow>, id: string): (r: seq<Workflow>)
    ensures |r| <= |ws|
    ensures forall w :: w in r <==> w in ws && w.id != id
  {
    if ws == [] then []
    else if ws[0].id == id then Remaining(ws[1..], id)
    else [ws[0]] + Remaining(ws[1..], id)
  }

  /** `list[0]?.id`. */
  function FirstId(ws: seq<Workflow>): (r: Option<string>)
    ensures r.None? <==> ws == []
    ensures r.Some? ==> r.value == ws[0].id
  {
    if ws == [] then None else Some(ws[0].id)
  }

  function Reduce(state: State, action: Action): (r: State)
    ensures action.Init? ==> r.workflows == action.workflows && r.selectedWorkflowId == FirstId(action.workflows)
    ensures action.CreateWorkflow? ==>
      r.workflows == [action.workflow] + state.workflows && r.selectedWorkflowId == Some(action.workflow.id)
    ensures action.SelectWorkflow? ==> r == state.(selectedWorkflowId := action.selectId)
    ensures action.UpdateWorkflow? ==>
      && |r.workflows| == |state.workflows|
      && r.selectedWorkflowId == state.selectedWorkflowId
      && forall i :: 0 <= i < |state.workflows| ==>
           r.workflows[i] == (if state.workflows[i].id == action.updateId
                              then Merge(state.workflows[i], action.patch) else state.workflows[i])
    ensures action.DeleteWorkflow? ==>
      && (forall w :: w in r.workflows <==> w in state.workflows && w.id != action.deleteId)
      && (state.selectedWorkflowId == Some(action.deleteId) ==> r.selectedWorkflowId == FirstId(r.workflows))
      && (state.selectedWorkflowId != Some(action.deleteId) ==> r.selectedWorkflowId == state.selectedWorkflowId)
    ensures action.Unknown? ==> r == state
  {
    match action
    case Init(ws) => state.(workflows := ws, selectedWorkflowId := FirstId(ws))
    case CreateWorkflow(w) => state.(workflows := [w] + state.workflows, selectedWorkflowId := Some(w.id))
    case SelectWorkflow(id) => state.(selectedWorkflowId := id)
    case UpdateWorkflow(id, patch) => state.(workflows := UpdateMatching(state.workflows, id, patch))
    case DeleteWorkflow(id) =>
      var remaining := Remaining(state.workflows, id);
      var selected := if state.selectedWorkflowId == Some(id) then FirstId(remaining) else state.selectedWorkflowId;
      State(remaining, selected)
    case Unknown => state
  }

  /** The selection names a listed workflow, or nothing. */
  predicate SelectionValid(s: State)
  {
    s.selectedWorkflowId.None? || exists w :: w in s.workflows && w.id == s.selectedWorkflowId.value
  }

  /** Init, Create and Delete keep the selection valid; Update does as long as the patch leaves ids alone. */
  lemma ReduceKeepsSelectionValid(state: State, action: Action)
    requires SelectionValid(state)
    requires action.Init? || action.CreateWorkflow? || action.DeleteWorkflow? || action.Unknown?
             || (action.UpdateWorkflow? && action.patch.id.None?)
    ensures SelectionValid(Reduce(state, action))
  {
    var r := Reduce(state, action);
    match action {
      case Init(ws) =>
        if ws != [] {
          assert ws[0] in r.workflows;
        }
      case CreateWorkflow(w) =>
        assert w in r.workflows;
      case DeleteWorkflow(id) =>
        if state.selectedWorkflowId == Some(id) {
          if r.workflows != [] {
            assert r.workflows[0] in r.workflows;
          }
        } else if state.selectedWorkflowId.Some? {
          var w :| w in state.workflows && w.id == state.selectedWorkflowId.value;
          assert w in r.workflows;
        }
      case UpdateWorkflow(id, patch) =>
        if state.selectedWorkflowId.Some? {
          var w :| w in state.workflows && w.id == state.selectedWorkflowId.value;
          var i :| 0 <= i < |state.workflows| && state.workflows[i] == w;
          assert r.workflows[i].id == w.id;
          assert r.workflows[i] in r.workflows;
        }
      case Unknown =>
    }
  }

  /** Select does not check membership: it can select an id no workflow has. */
  lemma SelectMayInvalidate()
    ensures !SelectionValid(Reduce(State([], None), SelectWorkflow(Some("missing"))))
  {
  }

  /** A patch that carries a new id can move the selected workflow away from the selection. */
  lemma UpdateOfIdMayInvalidate(w: Workflow)
    requires w.id == "a"
    ensures SelectionValid(State([w], Some("a")))
    ensures !SelectionValid(Reduce(State([w], Some("a")),
                                   UpdateWorkflow("a", Patch(Some("b"), None, None, None, None, None, None))))
  {
    var r := Reduce(State([w], Some("a")), UpdateWorkflow("a", Patch(Some("b"), None, None, None, None, None, None)));
    assert r.workflows == [Merge(w, Patch(Some("b"), None, None, None, None, None, None))];
  }

  /** Delete keeps the surviving workflows in their order: those before the deleted one, then those after it. */
  lemma {:induction false} RemainingConcat(a: seq<Workflow>, b: seq<Workflow>, id: string)
    ensures Remaining(a + b, id) == Remaining(a, id) + Remaining(b, id)
  {
    if a != [] {
      assert (a + b)[0] == a[0];
      assert (a + b)[1..] == a[1..] + b;
      RemainingConcat(a[1..], b, id);
    } else {
      assert a + b == b;
    }
  }

  /** With no other workflow carrying the id, Delete leaves exactly the others, in order. */
  lemma DeleteKeepsOrder(before: seq<Workflow>, w: Workflow, after: seq<Workflow>, selected: Option<string>)
    requires forall v :: v in before ==> v.id != w.id
    requires forall v :: v in after ==> v.id != w.id
    ensures Reduce(State(before + [w] + after, selected), DeleteWorkflow(w.id)).workflows == before + after
  {
    var ws := before + [w] + after;
    assert Reduce(State(ws, selected), DeleteWorkflow(w.id)).workflows == Remaining(ws, w.id);
    RemainingConcat(before + [w], after, w.id);
    RemainingConcat(before, [w], w.id);
    assert Remaining([w], w.id) == [];
    RemainingUntouched(before, w.id);
    RemainingUntouched(after, w.id);
    assert before + [] == before;
    assert Remaining(before + [w], w.id) == before;
  }

  lemma {:induction false} RemainingUntouched(ws: seq<Workflow>, id: string)
    requires forall v :: v in ws ==> v.id != id
    ensures Remaining(ws, id) == ws
  {
    if ws != [] {
      assert ws[0] in ws;
      assert forall v :: v in ws[1..] ==> v in ws;
      RemainingUntouched(ws[1..], id);
      assert ws == [ws[0]] + ws[1..];
    }
  }
}
