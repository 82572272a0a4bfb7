/** The inspector object and its per-method button states, updated in place,
    each method proved against the pure pass semantics of module Dispatch. */
module Inspector {
  import opened Registry
  import opened DisplayNames
  import opened Dispatch

  /** EditorButtonState: the foldout flag and the parameter buffer of one method. */
  class EditorButtonState {
    var isOpen: bool
    /** Assigned only here, so a constant field; its slots change in place. */
    const parameters: array<Value>

    constructor (numberOfParameters: nat)
      ensures !isOpen && fresh(parameters)
      ensures parameters[..] == NullBuffer(numberOfParameters)
    {
      isOpen := false;
      parameters := new Value[numberOfParameters](_ => Null);
    }

    ghost function View(): StateView
      reads this, parameters
    {
      StateView(isOpen, parameters[..])
    }
  }

  /** No two states, and no two of their buffers, are the same object. */
  ghost predicate Distinct(ss: seq<EditorButtonState?>)
    requires forall i :: 0 <= i < |ss| ==> ss[i] != null
  {
    forall i, j :: 0 <= i < j < |ss| ==> ss[i] != ss[j] && ss[i].parameters != ss[j].parameters
  }

  /** A state outside a footprint that holds every earlier state and buffer is
      distinct from them, and so is its buffer. */
  lemma DistinctSnoc(ss: seq<EditorButtonState>, s: EditorButtonState, footprint: set<object>)
    requires Distinct(ss) && s !in footprint && s.parameters !in footprint
    requires forall i :: 0 <= i < |ss| ==> ss[i] in footprint && ss[i].parameters in footprint
    ensures Distinct(ss + [s])
  {
  }

  /** EditorButton: the inspector, holding the lazily created array of states. */
  class EditorButton {
    var editorButtonStates: array?<EditorButtonState?>
    /** The parameter counts the states were created for. */
    ghost var Arity: seq<nat>
    ghost var Repr: set<object>

    /** When the states exist: one distinct state per method, each with its own
        buffer whose length is that method's parameter count. */
    ghost predicate Valid()
      reads this, editorButtonStates
    {
      && this in Repr
      && (editorButtonStates != null ==>
            && editorButtonStates in Repr
            && editorButtonStates.Length == |Arity|
            && (forall i :: 0 <= i < editorButtonStates.Length ==>
                  && editorButtonStates[i] != null
                  && editorButtonStates[i] in Repr
                  && editorButtonStates[i].parameters in Repr
                  && editorButtonStates[i].parameters.Length == Arity[i])
            && Distinct(editorButtonStates[..]))
    }

    /** The views of the first `k` states. */
    ghost function ViewsUpTo(k: nat): (vs: seq<StateView>)
      requires Valid() && editorButtonStates != null && k <= editorButtonStates.Length
      reads this, Repr
      ensures |vs| == k
      ensures forall i :: 0 <= i < k ==> vs[i] == editorButtonStates[i].View()
      decreases k
    {
      if k == 0 then [] else ViewsUpTo(k - 1) + [editorButtonStates[k - 1].View()]
    }

    /** The views of all states. */
    ghost function Views(): seq<StateView>
      requires Valid() && editorButtonStates != null
      reads this, Repr
    {
      ViewsUpTo(editorButtonStates.Length)
    }

    /** The views are determined by the states' views one by one. */
    lemma ViewsAre(vs: seq<StateView>)
      requires Valid() && editorButtonStates != null && |vs| == editorButtonStates.Length
      requires forall i :: 0 <= i < |vs| ==> editorButtonStates[i].View() == vs[i]
      ensures Views() == vs
    {
    }

    /** A fresh inspector has no states yet. */
    constructor ()
      ensures Valid() && fresh(Repr)
      ensures editorButtonStates == null
    {
      editorButtonStates := null;
      Arity := [];
      Repr := {this};
    }

    /** CreateEditorButtonStates: a fresh array with one fresh, closed state per
        method, in method order, whose buffer has one null slot per parameter. */
    method CreateEditorButtonStates(methods: seq<MethodInfo>)
      requires Valid()
      modifies this
      ensures Valid() && fresh(Repr - old(Repr))
      ensures editorButtonStates != null && fresh(editorButtonStates)
      ensures editorButtonStates.Length == |methods| && Arity == Arities(methods)
      ensures forall i :: 0 <= i < |methods| ==>
                fresh(editorButtonStates[i]) && fresh(editorButtonStates[i].parameters)
      ensures forall i :: 0 <= i < |methods| ==>
                editorButtonStates[i].View() == StateView(false, NullBuffer(|methods[i].parameters|))
      ensures Views() == InitialViews(methods)
    {
      editorButtonStates := new EditorButtonState?[|methods|];
      Arity := Arities(methods);
      Repr := Repr + {editorButtonStates};
      var methodIndex := 0;
      ghost var made: seq<EditorButtonState> := [];
      while methodIndex < |methods|
        invariant 0 <= methodIndex <= |methods| && |made| == methodIndex
        invariant editorButtonStates != null && fresh(editorButtonStates)
        invariant editorButtonStates.Length == |methods| && Arity == Arities(methods)
        invariant this in Repr && editorButtonStates in Repr
        invariant fresh(Repr - old(Repr))
        invariant forall i :: 0 <= i < methodIndex ==> editorButtonStates[i] == made[i]
        invariant forall i :: 0 <= i < methodIndex ==>
                    && made[i] in Repr - old(Repr) && made[i].parameters in Repr - old(Repr)
                    && made[i].parameters.Length == Arity[i]
                    && made[i].View() == InitialViews(methods)[i]
        invariant Distinct(made)
      {
        var state := new EditorButtonState(|methods[methodIndex].parameters|);
        DistinctSnoc(made, state, Repr);
        editorButtonStates[methodIndex] := state;
        Repr := Repr + {state, state.parameters};
        made := made + [state];
        methodIndex := methodIndex + 1;
      }
      assert Valid();
      ViewsAre(InitialViews(methods));
    }

    /** GetEditorButtonState: the state at the given position; the method itself
        plays no part in the lookup. */
    method GetEditorButtonState(methodInfo: MethodInfo, methodIndex: nat) returns (state: EditorButtonState)
      requires Valid() && editorButtonStates != null && methodIndex < editorButtonStates.Length
      ensures state == editorButtonStates[methodIndex]
    {
      state := editorButtonStates[methodIndex];
    }

    /** The parameter rows of an expanded state: each slot, in order, is handed
        (resolved to its default when null) to its drawer, and the drawer's answer
        is written back into that slot. */
    method DrawParameters(state: EditorButtonState, ps: seq<Parameter>, drawn: seq<Value>)
      returns (calls: seq<Event>)
      requires state.parameters.Length == |ps| == |drawn|
      requires forall i :: 0 <= i < |ps| ==> Drawable(ps[i])
      modifies state.parameters
      ensures state.parameters[..] == drawn
      ensures calls == DrawCalls(ps, old(state.parameters[..]))
    {
      ghost var before := state.parameters[..];
      calls := [];
      var paramIndex := 0;
      while paramIndex < |ps|
        invariant 0 <= paramIndex <= |ps|
        invariant state.parameters[..paramIndex] == drawn[..paramIndex]
        invariant state.parameters[paramIndex..] == before[paramIndex..]
        invariant calls == DrawCalls(ps, before)[..paramIndex]
      {
        var currentVal := state.parameters[paramIndex];
        assert currentVal == before[paramIndex];
        var row := DrawParameterInfo(ps[paramIndex], currentVal, drawn[paramIndex]);
        state.parameters[paramIndex] := row.value;
        calls := calls + [row.call];
        assert DrawCalls(ps, before)[..paramIndex + 1] == DrawCalls(ps, before)[..paramIndex] + [row.call];
        paramIndex := paramIndex + 1;
      }
      assert state.parameters[..] == drawn;
    }

    /** The invocation loop of a click: the method is invoked on every target in
        order with the buffer, an iterator result starts a coroutine on that target,
        another non-null result is logged, a null result does nothing; a throw ends
        the loop and is reported in `failed`. */
    method InvokeOnTargets(invokationTargets: seq<TargetId>, parameters: array<Value>, outcomes: seq<Outcome>)
      returns (events: seq<Event>, failed: bool)
      requires |outcomes| == |invokationTargets|
      ensures events == InvokeEvents(invokationTargets, parameters[..], outcomes)
      ensures failed == Aborted(outcomes)
    {
      ghost var args := parameters[..];
      events := [];
      failed := false;
      var targetIndex := 0;
      while targetIndex < |invokationTargets|
        invariant 0 <= targetIndex <= |invokationTargets|
        invariant !Aborted(outcomes[..targetIndex])
        invariant events == InvokeEvents(invokationTargets[..targetIndex], args, outcomes[..targetIndex])
      {
        var monoTarget := invokationTargets[targetIndex];
        var returnVal := outcomes[targetIndex];
        InvokeStep(invokationTargets, args, outcomes, targetIndex);
        events := events + [Invoked(monoTarget, parameters[..])];
        if returnVal.Threw? {
          failed := true;
          return;
        }
        ghost var invoked := events;
        match returnVal {
          case Iterator(routine) =>
            events := events + [CoroutineStarted(monoTarget, routine)];
          case Plain(text) =>
            events := events + [Logged(ResultPrefix + text)];
          case NullResult =>
        }
        assert events == invoked + Route(monoTarget, returnVal);
        targetIndex := targetIndex + 1;
      }
      assert invokationTargets[..targetIndex] == invokationTargets;
      assert outcomes[..targetIndex] == outcomes;
    }

    /** DrawButtonforMethod: the foldout flag takes the GUI's answer, an expanded
        buffer is redrawn slot by slot, and a click — sampled before the rows are
        drawn — then invokes the method on every target with the redrawn buffer;
        a throw ends the pass (`failed`). */
    method DrawButtonforMethod(invokationTargets: seq<TargetId>, methodInfo: MethodInfo,
                               state: EditorButtonState, input: PassInput)
      returns (events: seq<Event>, failed: bool)
      requires Admissible(methodInfo, invokationTargets, state.parameters.Length, input)
      modifies state, state.parameters
      ensures var r := ButtonPass(methodInfo, invokationTargets, old(state.View()), input);
              state.View() == r.view && events == r.events && failed == r.failed
    {
      state.isOpen := input.foldout;
      var caption := MethodDisplayName(methodInfo);
      var clicked := input.clicked;
      events := [ButtonShown(caption)];

      if state.isOpen {
        var calls := DrawParameters(state, methodInfo.parameters, input.drawn);
        events := events + calls;
      }

      failed := false;
      if clicked {
        var invoked;
        invoked, failed := InvokeOnTargets(invokationTargets, state.parameters, input.outcomes);
        events := events + invoked;
      }
    }

    /** One iteration of OnInspectorGUI's method loop: the method at position `k`
        is drawn with the state at position `k`, which still holds its view from
        before the loop; no other state changes. */
    method DrawMethodAt(methods: seq<MethodInfo>, targets: seq<TargetId>, inputs: seq<PassInput>, k: nat,
                        ghost before: seq<StateView>, ghost bs: seq<ButtonResult>)
      returns (events: seq<Event>, failed: bool)
      requires Valid() && editorButtonStates != null && Arity == Arities(methods)
      requires k < |methods| && PassesOf(methods, targets, before, inputs, bs, |methods|)
      requires !RunPasses(before, bs, k).failed && Views() == RunPasses(before, bs, k).views
      modifies editorButtonStates[k], editorButtonStates[k].parameters
      ensures Valid()
      ensures var r := RunPasses(before, bs, k + 1);
              Views() == r.views && r.events == RunPasses(before, bs, k).events + events && failed == r.failed
    {
      RunPassesStep(before, bs, k);
      PassesOfAt(methods, targets, before, inputs, bs, |methods|, k);
      ghost var v := Views();
      assert v[k] == before[k];
      ghost var b := bs[k];
      var state := GetEditorButtonState(methods[k], k);
      events, failed := DrawButtonforMethod(targets, methods[k], state, inputs[k]);
      forall j | 0 <= j < editorButtonStates.Length
        ensures editorButtonStates[j].View() == v[k := b.view][j]
      {
        if j != k {
          assert editorButtonStates[j] != state && editorButtonStates[j].parameters != state.parameters;
        }
      }
      ViewsAre(v[k := b.view]);
    }

    /** The method loop of OnInspectorGUI over existing states: method i is drawn
        with state i, in order, until one throws; `before` are the states' views
        when the loop starts and `bs` the passes of the methods on them. */
    method DrawAllMethods(methods: seq<MethodInfo>, targets: seq<TargetId>, inputs: seq<PassInput>,
                          ghost before: seq<StateView>, ghost bs: seq<ButtonResult>)
      returns (events: seq<Event>, failed: bool)
      requires Valid() && editorButtonStates != null && Arity == Arities(methods)
      requires PassesOf(methods, targets, before, inputs, bs, |methods|) && Views() == before
      modifies Repr - {this, editorButtonStates}
      ensures Valid() && unchanged(this) && unchanged(editorButtonStates)
      ensures var r := RunPasses(before, bs, |methods|);
              Views() == r.views && events == r.events && failed == r.failed
    {
      var methodIndex := 0;
      events := [];
      failed := false;
      while methodIndex < |methods| && !failed
        invariant 0 <= methodIndex <= |methods|
        invariant Valid()
        invariant var r := RunPasses(before, bs, methodIndex);
                  Views() == r.views && events == r.events && failed == r.failed
      {
        assert editorButtonStates[methodIndex] in Repr && editorButtonStates[methodIndex].parameters in Repr;
        var ev, f := DrawMethodAt(methods, targets, inputs, methodIndex, before, bs);
        events := events + ev;
        failed := f;
        methodIndex := methodIndex + 1;
      }
      RunPassesFinished(before, bs, methodIndex);
    }

    /** OnInspectorGUI: creates the states only when there are none yet, then
        draws every method's button with the state at the method's position.
        Existing states are reused as they are; the pass as a whole is the pure
        InspectorPass over the states' old views (or the initial ones). */
    method OnInspectorGUI(methods: seq<MethodInfo>, targets: seq<TargetId>, inputs: seq<PassInput>)
      returns (events: seq<Event>, failed: bool)
      requires Valid()
      requires editorButtonStates != null ==> Arity == Arities(methods)
      requires |inputs| == |methods|
      requires forall i :: 0 <= i < |methods| ==> Admissible(methods[i], targets, |methods[i].parameters|, inputs[i])
      modifies this, Repr
      ensures Valid() && fresh(Repr - old(Repr))
      ensures editorButtonStates != null && Arity == Arities(methods)
      ensures old(editorButtonStates) != null ==>
                && editorButtonStates == old(editorButtonStates)
                && forall i :: 0 <= i < editorButtonStates.Length ==> editorButtonStates[i] == old(editorButtonStates[i])
      ensures old(editorButtonStates) == null ==> fresh(editorButtonStates)
      ensures var before := if old(editorButtonStates) == null then InitialViews(methods) else old(Views());
              var r := InspectorPass(methods, targets, before, inputs);
              Views() == r.views && events == r.events && failed == r.failed
    {
      if editorButtonStates == null {
        CreateEditorButtonStates(methods);
      }
      ghost var before := Views();
      assert forall i :: 0 <= i < |methods| ==> |before[i].buffer| == |methods[i].parameters|;
      ghost var bs := ButtonPasses(methods, targets, before, inputs);
      ButtonPassesAre(methods, targets, before, inputs, |methods|);
      events, failed := DrawAllMethods(methods, targets, inputs, before, bs);
    }
  }
}
