/** What one inspector pass does, as pure functions over the state of each
    method's button: the foldout and parameter buffer it leaves behind and the
    events it emits (button drawn, drawers called, methods invoked, coroutines
    started, lines logged). The GUI's answers — the foldout value, the click, each
    drawer's returned value — and each invocation's outcome are inputs. */
module Dispatch {
  import opened Registry
  import opened DisplayNames

  /** An inspected object, by identity. */
  type TargetId = nat

  /** What `MethodInfo.Invoke` does on one target: return null (also for a void
      method), return an IEnumerator, return another value (its `ToString()` text),
      or throw. */
  datatype Outcome = NullResult | Iterator(routine: nat) | Plain(text: string) | Threw

  datatype Event =
    | ButtonShown(caption: string)
    | DrawerCalled(caption: string, drawer: Drawer, shown: Value)
    | Invoked(target: TargetId, args: seq<Value>)
    | CoroutineStarted(target: TargetId, routine: nat)
    | Logged(message: string)

  /** The observable part of an EditorButtonState: its foldout flag and buffer. */
  datatype StateView = StateView(isOpen: bool, buffer: seq<Value>)

  /** What the GUI and the invoked method answer during one method's pass. */
  datatype PassInput = PassInput(foldout: bool, clicked: bool, drawn: seq<Value>, outcomes: seq<Outcome>)

  /** A drawn parameter row: the value written back and the drawer call made. */
  datatype Drawn = Drawn(value: Value, call: Event)

  datatype ButtonResult = ButtonResult(view: StateView, events: seq<Event>, failed: bool)

  datatype InspectorResult = InspectorResult(views: seq<StateView>, events: seq<Event>, failed: bool)

  const ResultPrefix: string := "Method call result -> "

  /** The drawer call of a parameter row: the slot's value, or its resolved default
      when the slot is null, handed to the parameter's drawer. This is the one
      definition of the call; `DrawParameterInfo` and `DrawCalls` both use it. */
  function DrawerCall(p: Parameter, currentValue: Value): Event
    requires Drawable(p)
  {
    var shown := if currentValue == Null then GetDefaultValue(p) else currentValue;
    DrawerCalled(p.name, GetParameterDrawer(p).value, shown)
  }

  /** DrawParameterInfo: draws one parameter row; `edited` is what the drawer returns. */
  function DrawParameterInfo(p: Parameter, currentValue: Value, edited: Value): (d: Drawn)
    requires Drawable(p)
    ensures d.value == edited
    ensures d.call.DrawerCalled? && d.call.caption == p.name
    ensures GetParameterDrawer(p) == Some(d.call.drawer)
    ensures currentValue != Null ==> d.call.shown == currentValue
    ensures currentValue == Null ==> d.call.shown == GetDefaultValue(p)
  {
    Drawn(edited, DrawerCall(p, currentValue))
  }

  /** The drawer calls of a whole expanded parameter list, slot by slot. */
  function DrawCalls(ps: seq<Parameter>, before: seq<Value>): (es: seq<Event>)
    requires |before| == |ps|
    requires forall i :: 0 <= i < |ps| ==> Drawable(ps[i])
    ensures |es| == |ps|
  {
    seq(|ps|, i requires 0 <= i < |ps| => DrawerCall(ps[i], before[i]))
  }

  /** Routing of one invocation's result on target `t`. */
  function Route(t: TargetId, o: Outcome): seq<Event> {
    match o
    case Iterator(r) => [CoroutineStarted(t, r)]
    case Plain(text) => [Logged(ResultPrefix + text)]
    case NullResult => []
    case Threw => []
  }

  /** Some invocation throws. */
  predicate Aborted(os: seq<Outcome>) {
    exists j :: 0 <= j < |os| && os[j].Threw?
  }

  /** How many targets are invoked: up to and including the first that throws. */
  function Reached(os: seq<Outcome>): (n: nat)
    ensures n <= |os|
    ensures forall j :: 0 <= j < n - 1 ==> !os[j].Threw?
    ensures Aborted(os) <==> 0 < n && os[n - 1].Threw?
    ensures !Aborted(os) ==> n == |os|
    decreases |os|
  {
    if os == [] then 0
    else if os[0].Threw? then 1
    else
      assert forall j :: 1 <= j < |os| ==> os[1..][j - 1] == os[j];
      1 + Reached(os[1..])
  }

  /** The invocation loop: every target in order is invoked with `args` and its
      result routed; a throw ends the loop. */
  function InvokeEvents(ts: seq<TargetId>, args: seq<Value>, os: seq<Outcome>): seq<Event>
    requires |os| == |ts|
    decreases |ts|
  {
    if ts == [] then []
    else
      [Invoked(ts[0], args)] + Route(ts[0], os[0])
      + (if os[0].Threw? then [] else InvokeEvents(ts[1..], args, os[1..]))
  }

  /** What the GUI inputs of one method's pass must satisfy: one drawn value per
      parameter, one outcome per target, and (when expanded) a drawer for every
      parameter, since the row would otherwise call a missing drawer. */
  predicate Admissible(m: MethodInfo, targets: seq<TargetId>, arity: nat, input: PassInput) {
    && arity == |m.parameters|
    && |input.drawn| == arity
    && |input.outcomes| == |targets|
    && (input.foldout ==> forall i :: 0 <= i < |m.parameters| ==> Drawable(m.parameters[i]))
  }

  /** DrawButtonforMethod on values: set the foldout flag, draw the button, redraw
      every parameter row when expanded, then invoke when clicked. */
  function ButtonPass(m: MethodInfo, targets: seq<TargetId>, v: StateView, input: PassInput): ButtonResult
    requires Admissible(m, targets, |v.buffer|, input)
  {
    var after := if input.foldout then input.drawn else v.buffer;
    var draws := if input.foldout then DrawCalls(m.parameters, v.buffer) else [];
    var invokes := if input.clicked then InvokeEvents(targets, after, input.outcomes) else [];
    ButtonResult(StateView(input.foldout, after),
                 [ButtonShown(DisplayName(m))] + draws + invokes,
                 input.clicked && Aborted(input.outcomes))
  }

  /** A buffer of `n` null slots. */
  function NullBuffer(n: nat): (b: seq<Value>)
    ensures |b| == n && forall i :: 0 <= i < n ==> b[i] == Null
  {
    seq(n, _ => Null)
  }

  /** The states made on first use: one per method, closed, one null slot per parameter. */
  function InitialViews(methods: seq<MethodInfo>): seq<StateView> {
    seq(|methods|, i requires 0 <= i < |methods| => StateView(false, NullBuffer(|methods[i].parameters|)))
  }

  /** The parameter count of each method. */
  function Arities(methods: seq<MethodInfo>): (a: seq<nat>)
    ensures |a| == |methods|
  {
    seq(|methods|, i requires 0 <= i < |methods| => |methods[i].parameters|)
  }

  /** What each method's own pass makes of its own state: method i is driven by
      input i and sees view i, since no other iteration touches state i. */
  function ButtonPasses(methods: seq<MethodInfo>, targets: seq<TargetId>, views: seq<StateView>,
                        inputs: seq<PassInput>): (bs: seq<ButtonResult>)
    requires |views| == |methods| && |inputs| == |methods|
    requires forall i :: 0 <= i < |methods| ==> Admissible(methods[i], targets, |views[i].buffer|, inputs[i])
    ensures |bs| == |methods|
    ensures forall i :: 0 <= i < |methods| ==> bs[i] == ButtonPass(methods[i], targets, views[i], inputs[i])
  {
    seq(|methods|, i requires 0 <= i < |methods| => ButtonPass(methods[i], targets, views[i], inputs[i]))
  }

  /** The first `n` entries of `bs` are what those methods' own passes make of
      their own views. It says the same as `bs == ButtonPasses(..)` for the first
      `n` methods (`ButtonPassesAre`). It is recursive so that the verifier
      unfolds it one method at a time, instead of expanding every pass at once. */
  predicate PassesOf(methods: seq<MethodInfo>, targets: seq<TargetId>, views: seq<StateView>,
                     inputs: seq<PassInput>, bs: seq<ButtonResult>, n: nat)
    decreases n
  {
    && |views| == |methods| && |inputs| == |methods| && |bs| == |methods| && n <= |methods|
    && (n > 0 ==>
          && PassesOf(methods, targets, views, inputs, bs, n - 1)
          && Admissible(methods[n - 1], targets, |views[n - 1].buffer|, inputs[n - 1])
          && bs[n - 1] == ButtonPass(methods[n - 1], targets, views[n - 1], inputs[n - 1]))
  }

  lemma {:induction false} PassesOfAt(methods: seq<MethodInfo>, targets: seq<TargetId>, views: seq<StateView>,
                                      inputs: seq<PassInput>, bs: seq<ButtonResult>, n: nat, k: nat)
    requires PassesOf(methods, targets, views, inputs, bs, n) && k < n
    ensures Admissible(methods[k], targets, |views[k].buffer|, inputs[k])
    ensures bs[k] == ButtonPass(methods[k], targets, views[k], inputs[k])
    decreases n
  {
    if k < n - 1 {
      PassesOfAt(methods, targets, views, inputs, bs, n - 1, k);
    }
  }

  lemma {:induction false} ButtonPassesAre(methods: seq<MethodInfo>, targets: seq<TargetId>, views: seq<StateView>,
                                           inputs: seq<PassInput>, n: nat)
    requires |views| == |methods| && |inputs| == |methods| && n <= |methods|
    requires forall i :: 0 <= i < |methods| ==> Admissible(methods[i], targets, |views[i].buffer|, inputs[i])
    ensures PassesOf(methods, targets, views, inputs, ButtonPasses(methods, targets, views, inputs), n)
    decreases n
  {
    if n > 0 {
      ButtonPassesAre(methods, targets, views, inputs, n - 1);
    }
  }

  /** The first `k` iterations of the method loop over per-method results `bs`:
      iteration i replaces view i by `bs[i].view` and appends `bs[i].events`; a
      throw ends the loop. Views not yet reached are untouched. */
  function RunPasses(views: seq<StateView>, bs: seq<ButtonResult>, k: nat): (r: InspectorResult)
    requires |bs| == |views| && k <= |views|
    ensures |r.views| == |views|
    ensures forall i :: k <= i < |views| ==> r.views[i] == views[i]
    decreases k
  {
    if k == 0 then InspectorResult(views, [], false)
    else
      var r := RunPasses(views, bs, k - 1);
      if r.failed then r
      else InspectorResult(r.views[k - 1 := bs[k - 1].view], r.events + bs[k - 1].events, bs[k - 1].failed)
  }

  /** OnInspectorGUI's method loop on values: method i drives state i, in order,
      until a pass throws. */
  function InspectorPass(methods: seq<MethodInfo>, targets: seq<TargetId>, views: seq<StateView>,
                         inputs: seq<PassInput>): InspectorResult
    requires |views| == |methods| && |inputs| == |methods|
    requires forall i :: 0 <= i < |methods| ==> Admissible(methods[i], targets, |views[i].buffer|, inputs[i])
  {
    RunPasses(views, ButtonPasses(methods, targets, views, inputs), |methods|)
  }

  // ----- event projections -----

  /** The targets of the Invoked events, in order. */
  function InvokedTargets(es: seq<Event>): seq<TargetId>
    decreases |es|
  {
    if es == [] then []
    else (if es[0].Invoked? then [es[0].target] else []) + InvokedTargets(es[1..])
  }

  lemma {:induction false} InvokedTargetsAppend(a: seq<Event>, b: seq<Event>)
    ensures InvokedTargets(a + b) == InvokedTargets(a) + InvokedTargets(b)
    decreases |a|
  {
    if a == [] {
      assert a + b == b;
    } else {
      var ab := a + b;
      assert ab[0] == a[0];
      assert ab[1..] == a[1..] + b;
      InvokedTargetsAppend(a[1..], b);
    }
  }

  lemma {:induction false} NoInvokedTargets(es: seq<Event>)
    requires forall i :: 0 <= i < |es| ==> !es[i].Invoked?
    ensures InvokedTargets(es) == []
    decreases |es|
  {
    if es != [] {
      NoInvokedTargets(es[1..]);
    }
  }

  // ----- lemmas about the invocation loop -----

  /** The invocation loop splits at any point before the first throw. */
  lemma {:induction false} InvokeEventsAppend(ts1: seq<TargetId>, os1: seq<Outcome>,
                                              ts2: seq<TargetId>, os2: seq<Outcome>, args: seq<Value>)
    requires |ts1| == |os1| && |ts2| == |os2|
    requires !Aborted(os1)
    ensures InvokeEvents(ts1 + ts2, args, os1 + os2)
         == InvokeEvents(ts1, args, os1) + InvokeEvents(ts2, args, os2)
    decreases |ts1|
  {
    if ts1 == [] {
      assert ts1 + ts2 == ts2 && os1 + os2 == os2;
    } else {
      assert (ts1 + ts2)[1..] == ts1[1..] + ts2;
      assert (os1 + os2)[1..] == os1[1..] + os2;
      assert !os1[0].Threw?;
      assert !Aborted(os1[1..]) by {
        forall j | 0 <= j < |os1[1..]| ensures !os1[1..][j].Threw? {
          assert os1[1..][j] == os1[j + 1];
        }
      }
      InvokeEventsAppend(ts1[1..], os1[1..], ts2, os2, args);
    }
  }

  lemma NotAbortedExtend(os: seq<Outcome>, j: nat)
    requires j < |os| && !Aborted(os[..j]) && !os[j].Threw?
    ensures !Aborted(os[..j + 1])
  {
    var done := os[..j + 1];
    forall k | 0 <= k < |done| ensures !done[k].Threw? {
      if k < j {
        assert done[k] == os[..j][k];
      }
    }
  }

  /** One iteration of the invocation loop: target j is invoked and its result
      routed, or, when it throws, the loop ends there. */
  lemma InvokeStep(ts: seq<TargetId>, args: seq<Value>, os: seq<Outcome>, j: nat)
    requires |os| == |ts| && j < |ts| && !Aborted(os[..j])
    ensures os[j].Threw? ==>
              && Aborted(os)
              && InvokeEvents(ts, args, os) == InvokeEvents(ts[..j], args, os[..j]) + [Invoked(ts[j], args)]
    ensures !os[j].Threw? ==>
              && !Aborted(os[..j + 1])
              && InvokeEvents(ts[..j + 1], args, os[..j + 1])
                 == InvokeEvents(ts[..j], args, os[..j]) + [Invoked(ts[j], args)] + Route(ts[j], os[j])
  {
    if os[j].Threw? {
      InvokeStepThrows(ts, args, os, j);
    } else {
      InvokeStepContinues(ts, args, os, j);
      NotAbortedExtend(os, j);
    }
  }

  lemma InvokeStepThrows(ts: seq<TargetId>, args: seq<Value>, os: seq<Outcome>, j: nat)
    requires |os| == |ts| && j < |ts| && !Aborted(os[..j]) && os[j].Threw?
    ensures InvokeEvents(ts, args, os) == InvokeEvents(ts[..j], args, os[..j]) + [Invoked(ts[j], args)]
  {
    InvokeEventsAppend(ts[..j], os[..j], ts[j..], os[j..], args);
    TakeDrop(ts, j);
    TakeDrop(os, j);
    InvokeEventsThrowsFirst(ts[j..], args, os[j..]);
  }

  lemma InvokeStepContinues(ts: seq<TargetId>, args: seq<Value>, os: seq<Outcome>, j: nat)
    requires |os| == |ts| && j < |ts| && !Aborted(os[..j]) && !os[j].Threw?
    ensures InvokeEvents(ts[..j + 1], args, os[..j + 1])
            == InvokeEvents(ts[..j], args, os[..j]) + [Invoked(ts[j], args)] + Route(ts[j], os[j])
  {
    InvokeEventsAppend(ts[..j], os[..j], [ts[j]], [os[j]], args);
    TakeSnoc(ts, j);
    TakeSnoc(os, j);
    InvokeEventsSingle(ts[j], args, os[j]);
  }

  lemma InvokeEventsThrowsFirst(ts: seq<TargetId>, args: seq<Value>, os: seq<Outcome>)
    requires |os| == |ts| && 0 < |ts| && os[0].Threw?
    ensures InvokeEvents(ts, args, os) == [Invoked(ts[0], args)]
  {
  }

  lemma InvokeEventsSingle(t: TargetId, args: seq<Value>, o: Outcome)
    ensures InvokeEvents([t], args, [o]) == [Invoked(t, args)] + Route(t, o)
  {
    assert [t][1..] == [] && [o][1..] == [];
  }

  lemma TakeDrop<T>(s: seq<T>, j: nat)
    requires j <= |s|
    ensures s[..j] + s[j..] == s
  {
  }

  lemma TakeSnoc<T>(s: seq<T>, j: nat)
    requires j < |s|
    ensures s[..j + 1] == s[..j] + [s[j]]
  {
  }

  /** An invocation's own events contribute exactly its target. */
  lemma InvokedTargetsHead(t: TargetId, args: seq<Value>, o: Outcome, rest: seq<Event>)
    ensures InvokedTargets([Invoked(t, args)] + Route(t, o) + rest) == [t] + InvokedTargets(rest)
  {
    var first := [Invoked(t, args)];
    var route := Route(t, o);
    InvokedTargetsAppend(first + route, rest);
    InvokedTargetsAppend(first, route);
    NoInvokedTargets(route);
    assert first[1..] == [];
  }

  /** Every target up to and including the first that throws is invoked, once
      each and in target order. */
  lemma {:induction false} InvocationOrder(ts: seq<TargetId>, args: seq<Value>, os: seq<Outcome>)
    requires |os| == |ts|
    ensures InvokedTargets(InvokeEvents(ts, args, os)) == ts[..Reached(os)]
    decreases |ts|
  {
    if ts != [] {
      var rest := if os[0].Threw? then [] else InvokeEvents(ts[1..], args, os[1..]);
      InvokedTargetsHead(ts[0], args, os[0], rest);
      if os[0].Threw? {
        assert ts[..Reached(os)] == [ts[0]];
      } else {
        InvocationOrder(ts[1..], args, os[1..]);
        PrefixAfterHead(ts, Reached(os[1..]));
      }
    }
  }

  lemma PrefixAfterHead(ts: seq<TargetId>, n: nat)
    requires 0 < |ts| && n < |ts|
    ensures ts[..1 + n] == [ts[0]] + ts[1..][..n]
  {
  }

  /** Without a throw, every target is invoked, in target order. */
  lemma AllTargetsInvoked(ts: seq<TargetId>, args: seq<Value>, os: seq<Outcome>)
    requires |os| == |ts| && !Aborted(os)
    ensures InvokedTargets(InvokeEvents(ts, args, os)) == ts
  {
    InvocationOrder(ts, args, os);
    assert ts[..Reached(os)] == ts;
  }

  /** Every invocation receives the same argument list. */
  lemma {:induction false} InvocationArgs(ts: seq<TargetId>, args: seq<Value>, os: seq<Outcome>)
    requires |os| == |ts|
    ensures forall i :: 0 <= i < |InvokeEvents(ts, args, os)| && InvokeEvents(ts, args, os)[i].Invoked?
              ==> InvokeEvents(ts, args, os)[i].args == args
    decreases |ts|
  {
    if ts != [] {
      var es := InvokeEvents(ts, args, os);
      var head := [Invoked(ts[0], args)] + Route(ts[0], os[0]);
      var rest := if os[0].Threw? then [] else InvokeEvents(ts[1..], args, os[1..]);
      assert es == head + rest;
      if !os[0].Threw? {
        InvocationArgs(ts[1..], args, os[1..]);
      }
      forall i | 0 <= i < |es| && es[i].Invoked? ensures es[i].args == args {
        if i >= |head| {
          assert es[i] == rest[i - |head|];
        }
      }
    }
  }

  lemma InvokeEventsStartWithInvoked(ts: seq<TargetId>, args: seq<Value>, os: seq<Outcome>)
    requires |os| == |ts| && ts != []
    ensures InvokeEvents(ts, args, os)[0] == Invoked(ts[0], args)
  {
  }

  /** Routing: an event other than an invocation is a started coroutine or a
      logged result, and it directly follows the invocation that produced it; a
      coroutine runs on that same target and a log line carries the result prefix. */
  lemma {:induction false} RoutedToOwnTarget(ts: seq<TargetId>, args: seq<Value>, os: seq<Outcome>)
    requires |os| == |ts|
    ensures var es := InvokeEvents(ts, args, os);
      forall i :: 0 <= i < |es| && !es[i].Invoked? ==>
        && 0 < i && es[i - 1].Invoked?
        && (es[i].CoroutineStarted? || es[i].Logged?)
        && (es[i].CoroutineStarted? ==> es[i - 1].target == es[i].target)
        && (es[i].Logged? ==> |ResultPrefix| <= |es[i].message| && es[i].message[..|ResultPrefix|] == ResultPrefix)
    decreases |ts|
  {
    if ts != [] {
      var es := InvokeEvents(ts, args, os);
      var head := [Invoked(ts[0], args)] + Route(ts[0], os[0]);
      var rest := if os[0].Threw? then [] else InvokeEvents(ts[1..], args, os[1..]);
      assert es == head + rest;
      if !os[0].Threw? {
        RoutedToOwnTarget(ts[1..], args, os[1..]);
        if ts[1..] != [] {
          InvokeEventsStartWithInvoked(ts[1..], args, os[1..]);
        }
      }
      forall i | 0 <= i < |es| && !es[i].Invoked?
        ensures && 0 < i && es[i - 1].Invoked?
                && (es[i].CoroutineStarted? || es[i].Logged?)
                && (es[i].CoroutineStarted? ==> es[i - 1].target == es[i].target)
                && (es[i].Logged? ==> |ResultPrefix| <= |es[i].message| && es[i].message[..|ResultPrefix|] == ResultPrefix)
      {
        if i >= |head| {
          assert es[i] == rest[i - |head|];
          if i - |head| > 0 {
            assert es[i - 1] == rest[i - 1 - |head|];
          }
        }
      }
    }
  }

  /** How many routed-result events an outcome adds after its invocation. */
  function RoutedCount(o: Outcome): (c: nat)
    ensures c == 1 <==> o.Iterator? || o.Plain?
    ensures c <= 1
  {
    if o.Iterator? || o.Plain? then 1 else 0
  }

  /** The position of target j's invocation in the loop's events: every earlier
      target contributes its invocation and its routed result. */
  function InvokedAt(os: seq<Outcome>, j: nat): nat
    requires j <= |os|
    decreases j
  {
    if j == 0 then 0 else 1 + RoutedCount(os[0]) + InvokedAt(os[1..], j - 1)
  }

  /** Target `t`'s invocation sits at position `p` of `es`, followed by the
      routed result of outcome `o`; `next` is the target invoked after it, if any. */
  predicate RoutedAt(es: seq<Event>, p: nat, t: TargetId, args: seq<Value>, o: Outcome, next: Option<TargetId>) {
    && p < |es| && es[p] == Invoked(t, args)
    && (o.Iterator? ==> p + 1 < |es| && es[p + 1] == CoroutineStarted(t, o.routine))
    && (o.Plain? ==> p + 1 < |es| && es[p + 1] == Logged(ResultPrefix + o.text))
    && (o.NullResult? ==>
          if next.Some? then p + 1 < |es| && es[p + 1] == Invoked(next.value, args) else p + 1 == |es|)
    && (o.Threw? ==> p + 1 == |es|)
  }

  /** The target after target j, if there is one. */
  function NextTarget(ts: seq<TargetId>, j: nat): Option<TargetId> {
    if j + 1 < |ts| then Some(ts[j + 1]) else None
  }

  lemma RoutedAtShift(head: seq<Event>, rest: seq<Event>, p: nat, t: TargetId, args: seq<Value>, o: Outcome, next: Option<TargetId>)
    requires RoutedAt(rest, p, t, args, o, next)
    ensures RoutedAt(head + rest, |head| + p, t, args, o, next)
  {
    var es := head + rest;
    assert es[|head| + p] == rest[p];
    if p + 1 < |rest| {
      assert es[|head| + p + 1] == rest[p + 1];
    }
  }

  lemma RoutedResultsFirst(ts: seq<TargetId>, args: seq<Value>, os: seq<Outcome>)
    requires |os| == |ts| && ts != []
    ensures RoutedAt(InvokeEvents(ts, args, os), 0, ts[0], args, os[0], NextTarget(ts, 0))
  {
    var es := InvokeEvents(ts, args, os);
    var rest := if os[0].Threw? then [] else InvokeEvents(ts[1..], args, os[1..]);
    assert es == [Invoked(ts[0], args)] + Route(ts[0], os[0]) + rest;
    if os[0].NullResult? && 1 < |ts| {
      InvokeEventsStartWithInvoked(ts[1..], args, os[1..]);
    }
  }

  /** Result routing, target by target: reached target j is invoked at position
      `InvokedAt(os, j)`; an IEnumerator result starts that coroutine on the same
      target right after; any other non-null result logs its text after the
      prefix right after; a null result adds nothing (the next event, if any, is
      the next target's invocation); a throw ends the events. */
  lemma {:induction false} RoutedResults(ts: seq<TargetId>, args: seq<Value>, os: seq<Outcome>, j: nat)
    requires |os| == |ts| && j < Reached(os)
    ensures RoutedAt(InvokeEvents(ts, args, os), InvokedAt(os, j), ts[j], args, os[j], NextTarget(ts, j))
    decreases |ts|
  {
    if j == 0 {
      RoutedResultsFirst(ts, args, os);
    } else {
      var head := [Invoked(ts[0], args)] + Route(ts[0], os[0]);
      var rest := InvokeEvents(ts[1..], args, os[1..]);
      assert InvokeEvents(ts, args, os) == head + rest;
      RoutedResults(ts[1..], args, os[1..], j - 1);
      assert os[1..][j - 1] == os[j] && ts[1..][j - 1] == ts[j];
      assert NextTarget(ts[1..], j - 1) == NextTarget(ts, j);
      RoutedAtShift(head, rest, InvokedAt(os[1..], j - 1), ts[j], args, os[j], NextTarget(ts, j));
    }
  }

  /** The reached targets' invocations and routed results are all the events. */
  lemma {:induction false} InvokeEventsLength(ts: seq<TargetId>, args: seq<Value>, os: seq<Outcome>)
    requires |os| == |ts|
    ensures |InvokeEvents(ts, args, os)| == InvokedAt(os, Reached(os))
    decreases |ts|
  {
    if ts != [] {
      var head := [Invoked(ts[0], args)] + Route(ts[0], os[0]);
      RouteLength(ts[0], os[0]);
      if os[0].Threw? {
        assert InvokeEvents(ts, args, os) == head;
        assert Reached(os) == 1;
        assert InvokedAt(os, 1) == |head| + InvokedAt(os[1..], 0);
      } else {
        var n := Reached(os[1..]);
        assert InvokeEvents(ts, args, os) == head + InvokeEvents(ts[1..], args, os[1..]);
        assert Reached(os) == 1 + n;
        assert InvokedAt(os, 1 + n) == |head| + InvokedAt(os[1..], n);
        InvokeEventsLength(ts[1..], args, os[1..]);
      }
    }
  }

  lemma RouteLength(t: TargetId, o: Outcome)
    ensures |Route(t, o)| == RoutedCount(o)
  {
  }

  // ----- lemmas about one method's pass -----

  /** One method's pass: the foldout flag is the GUI's answer; an expanded buffer
      takes the drawn values slot by slot and a closed one is untouched, so its
      length never changes; each drawer sees the old slot, resolved to its default
      only when null; a click invokes the first `Reached` targets in order with the
      buffer as it stands after this pass's edits, and invocation leaves the buffer
      as drawn. */
  lemma ButtonPassEffects(m: MethodInfo, targets: seq<TargetId>, v: StateView, input: PassInput)
    requires Admissible(m, targets, |v.buffer|, input)
    ensures var r := ButtonPass(m, targets, v, input);
      && r.view.isOpen == input.foldout
      && |r.view.buffer| == |v.buffer|
      && (input.foldout ==> r.view.buffer == input.drawn)
      && (!input.foldout ==> r.view.buffer == v.buffer)
      && r.events[0] == ButtonShown(DisplayName(m))
      && (input.foldout ==> forall i :: 0 <= i < |m.parameters| ==>
            r.events[1 + i] == DrawParameterInfo(m.parameters[i], v.buffer[i], input.drawn[i]).call)
      && (!input.foldout && !input.clicked ==> r.events == [ButtonShown(DisplayName(m))])
      && (!input.clicked ==> InvokedTargets(r.events) == [] && !r.failed)
      && (input.clicked ==> InvokedTargets(r.events) == targets[..Reached(input.outcomes)])
      && (input.clicked && !Aborted(input.outcomes) ==> InvokedTargets(r.events) == targets)
      && (forall i :: 0 <= i < |r.events| && r.events[i].Invoked? ==> r.events[i].args == r.view.buffer)
      && (r.failed <==> input.clicked && Aborted(input.outcomes))
  {
    var r := ButtonPass(m, targets, v, input);
    var after := r.view.buffer;
    var draws := if input.foldout then DrawCalls(m.parameters, v.buffer) else [];
    var invokes := if input.clicked then InvokeEvents(targets, after, input.outcomes) else [];
    var pre := [ButtonShown(DisplayName(m))] + draws;
    assert r.events == pre + invokes;
    NoInvokedTargets(pre);
    InvokedTargetsAppend(pre, invokes);
    if input.clicked {
      InvocationOrder(targets, after, input.outcomes);
      if !Aborted(input.outcomes) {
        AllTargetsInvoked(targets, after, input.outcomes);
      }
      InvocationArgs(targets, after, input.outcomes);
      forall i | 0 <= i < |r.events| && r.events[i].Invoked? ensures r.events[i].args == after {
        assert i >= |pre|;
        assert r.events[i] == invokes[i - |pre|];
      }
    } else {
      NoInvokedTargets(r.events);
    }
  }

  // ----- lemmas about the whole inspector pass -----

  /** One more iteration of the method loop, after a prefix that did not throw. */
  lemma RunPassesStep(views: seq<StateView>, bs: seq<ButtonResult>, k: nat)
    requires |bs| == |views| && k < |views|
    requires !RunPasses(views, bs, k).failed
    ensures var r := RunPasses(views, bs, k);
            RunPasses(views, bs, k + 1) == InspectorResult(r.views[k := bs[k].view], r.events + bs[k].events, bs[k].failed)
  {
  }

  /** Once a pass has thrown, the later iterations change nothing. */
  lemma {:induction false} RunPassesFailedStays(views: seq<StateView>, bs: seq<ButtonResult>, k: nat, n: nat)
    requires |bs| == |views| && k <= n <= |views|
    requires RunPasses(views, bs, k).failed
    ensures RunPasses(views, bs, n) == RunPasses(views, bs, k)
    decreases n
  {
    if n > k {
      RunPassesFailedStays(views, bs, k, n - 1);
    }
  }

  /** The loop stops after iteration `k` when every view was reached or the last
      pass threw; from there on nothing changes. */
  lemma RunPassesFinished(views: seq<StateView>, bs: seq<ButtonResult>, k: nat)
    requires |bs| == |views| && k <= |views|
    requires k == |views| || RunPasses(views, bs, k).failed
    ensures RunPasses(views, bs, |views|) == RunPasses(views, bs, k)
  {
    if k < |views| {
      RunPassesFailedStays(views, bs, k, |views|);
    }
  }

  /** The loop has thrown exactly when one of the passes it reached threw; when
      none threw, every reached view is that pass's view and the events are the
      passes' events in method order. */
  lemma {:induction false} RunPassesOutcome(views: seq<StateView>, bs: seq<ButtonResult>, k: nat)
    requires |bs| == |views| && k <= |views|
    ensures var r := RunPasses(views, bs, k);
            && (r.failed <==> exists i :: 0 <= i < k && bs[i].failed)
            && (!r.failed ==> forall i :: 0 <= i < k ==> r.views[i] == bs[i].view)
            && (!r.failed ==> r.events == EventsOf(bs[..k]))
    decreases k
  {
    if k > 0 {
      var p := RunPasses(views, bs, k - 1);
      var r := RunPasses(views, bs, k);
      RunPassesOutcome(views, bs, k - 1);
      if p.failed {
        assert r == p;
        var i :| 0 <= i < k - 1 && bs[i].failed;
        assert 0 <= i < k && bs[i].failed;
      } else {
        RunPassesStep(views, bs, k - 1);
        assert r.failed == bs[k - 1].failed;
        if !r.failed {
          forall i | 0 <= i < k ensures r.views[i] == bs[i].view {
            if i < k - 1 {
              assert r.views[i] == p.views[i];
            }
          }
          assert bs[..k] == bs[..k - 1] + [bs[k - 1]];
          EventsOfSnoc(bs[..k - 1], bs[k - 1]);
        }
      }
    }
  }

  /** The first pass that throws is the last one run: the views before it are
      their passes' views, its own view is its pass's view, and later views are
      untouched. */
  lemma {:induction false} RunPassesStopsAtThrow(views: seq<StateView>, bs: seq<ButtonResult>, j: nat, k: nat)
    requires |bs| == |views| && j < k <= |views|
    requires bs[j].failed && forall i :: 0 <= i < j ==> !bs[i].failed
    ensures var r := RunPasses(views, bs, k);
            && r.failed
            && (forall i :: 0 <= i <= j ==> r.views[i] == bs[i].view)
            && (forall i :: j < i < |views| ==> r.views[i] == views[i])
            && r.events == EventsOf(bs[..j + 1])
    decreases k
  {
    if k == j + 1 {
      RunPassesOutcome(views, bs, j);
      assert bs[..j + 1] == bs[..j] + [bs[j]];
      EventsOfSnoc(bs[..j], bs[j]);
    } else {
      RunPassesStopsAtThrow(views, bs, j, k - 1);
    }
  }

  /** The events of a sequence of passes, concatenated in order. */
  function EventsOf(bs: seq<ButtonResult>): seq<Event>
    decreases |bs|
  {
    if bs == [] then [] else EventsOf(bs[..|bs| - 1]) + bs[|bs| - 1].events
  }

  lemma EventsOfSnoc(bs: seq<ButtonResult>, b: ButtonResult)
    ensures EventsOf(bs + [b]) == EventsOf(bs) + b.events
  {
    assert (bs + [b])[..|bs|] == bs;
  }

  /** State is keyed by position: when no method threw, state i is exactly what
      method i's own pass makes of the old state i with input i, and the events
      are the passes' events in method order. */
  lemma InspectorPassPositional(methods: seq<MethodInfo>, targets: seq<TargetId>,
                                views: seq<StateView>, inputs: seq<PassInput>)
    requires |views| == |methods| && |inputs| == |methods|
    requires forall i :: 0 <= i < |methods| ==> Admissible(methods[i], targets, |views[i].buffer|, inputs[i])
    ensures var r := InspectorPass(methods, targets, views, inputs);
            var bs := ButtonPasses(methods, targets, views, inputs);
            && (r.failed <==> exists i :: 0 <= i < |methods| && inputs[i].clicked && Aborted(inputs[i].outcomes))
            && (!r.failed ==> forall i :: 0 <= i < |methods| ==> r.views[i] == ButtonPass(methods[i], targets, views[i], inputs[i]).view)
            && (!r.failed ==> r.events == EventsOf(bs))
  {
    var bs := ButtonPasses(methods, targets, views, inputs);
    RunPassesOutcome(views, bs, |methods|);
    assert bs[..|methods|] == bs;
  }
}
