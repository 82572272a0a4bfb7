# EditorButton inspector — a Dafny model

This project models the decision and state layer of the `EditorButton` custom
inspector in `Assets/Scripts/LucasAtributesCollection.cs`. EditorButton is a
Unity editor panel that draws one button per method carrying the button tag on
the inspected MonoBehaviour. Each button has a foldout holding one editable row
per parameter. A click invokes the method on every selected target with the
edited arguments.

The model has four modules, one per concern of the source:

- `Registry` (`registry.dfy`) is the data model:
  - the parameter kinds the inspector tells apart, and boxed runtime values;
  - a method descriptor: name plus ordered parameters, each with a name, a kind and an optional explicit default;
  - the two 8-entry type tables, `typeDrawer` and `typeDisplayName`;
  - `GetDefaultValue`, and the ordered drawer lookup `GetParameterDrawer`.
- `DisplayNames` (`display_names.dfy`) builds the button label:
  - `MethodParameterDisplayName`;
  - `MethodDisplayName`, as the StringBuilder loop with its trailing-comma removal, proved against a pure join;
  - the unused `MethodUID`.
- `Dispatch` (`dispatch.dfy`) gives one inspector pass as pure functions over the observable state of each button (its foldout flag and parameter buffer):
  - `ButtonPass` is what `DrawButtonforMethod` does;
  - `InvokeEvents` is the invocation loop with its three-way result routing;
  - `InspectorPass` is the method loop of `OnInspectorGUI`.

  The lemmas about these functions state what the code guarantees.
- `Inspector` (`editor_button.dfy`) is the imperative layer, proved against `Dispatch`:
  - the classes `EditorButtonState`, with its foldout flag and `parameters` array, and `EditorButton`, with its lazily created array of states;
  - the source's loops, with their invariants.

The GUI's answers enter the model as the inputs of each pass (`PassInput`): the value the foldout returns, whether the button was clicked, and what each parameter drawer returns. The outcome of each `MethodInfo.Invoke` is an input too. What the pass does to the outside world is an `Event` sequence: the button shown with its label, each drawer called with the value it was shown, each invocation with its target and arguments, each coroutine started, and each line logged.

The C# field `opened` is called `isOpen` here, because `opened` is a reserved word in Dafny.

### Two behaviours of the code worth knowing

- **A throwing invocation ends the pass.** There is no `try`/`catch` around `methodInfo.Invoke` (line 151).
  - A throw leaves `DrawButtonforMethod` and `OnInspectorGUI` at that point. The remaining targets are not invoked, and the remaining methods' buttons are not drawn in that pass.
  - The model has an outcome `Threw`, after which nothing more happens, and a `failed` flag. `RunPassesStopsAtThrow`, `InvocationOrder`, `RoutedResults` and `ButtonPassEffects` state this.
- **Buffer slots start null.** A new state's buffer has every slot null (line 50).
  - A default is resolved only when a row is drawn (lines 188-189), and only what the drawer returns is stored.
  - So a method clicked while its foldout has never been opened is invoked with null slots. The model does the same: `CreateEditorButtonStates`, `ButtonPassEffects`.

## Model

| member | source | states |
|---|---|---|
| Registry.DefaultValueResolution | Assets/Scripts/LucasAtributesCollection.cs:165-177 | GetDefaultValue returns the declared default when there is one, even a null one; otherwise the zero value of a value type; otherwise null. The result is null exactly when the declared default is null, or there is none and the type is not a value type. Here a value type is one whose `Activator.CreateInstance` is an object; `Nullable<T>` is not one |
| Registry.UndeclaredDefaultOfDrawable | Assets/Scripts/LucasAtributesCollection.cs:165-177 | among drawable kinds without a declared default, exactly string and UnityEngine.Object kinds resolve to null; every other kind resolves to its zero value |
| Registry.DrawerLookup | Assets/Scripts/LucasAtributesCollection.cs:197-211 | GetParameterDrawer checks UnityEngine.Object kinds first, and they always get the object picker; the object picker is used for nothing else; any other kind has a drawer exactly when the exact-match table has it, and then it is the table's drawer; only kinds outside the table and not objects have none |
| Registry.TablesShareKeys | Assets/Scripts/LucasAtributesCollection.cs:58-80 | the drawer table and the label table are keyed by the same eight types: float, int, string, bool, Color, Vector3, Vector2, Quaternion |
| DisplayNames.ParameterLabelParts | Assets/Scripts/LucasAtributesCollection.cs:281-290 | a parameter label is the type's table label, or the type's own name when the type is unregistered, followed by exactly one space and then the parameter name |
| DisplayNames.MethodDisplayName | Assets/Scripts/LucasAtributesCollection.cs:263-279 | the StringBuilder loop appends each label and a comma, removes the last character when there are parameters, and appends `)`. The result is `DisplayName(m)`: the name, `(`, the labels joined by single commas with no trailing comma, `)` |
| DisplayNames.TerminatedIsJoinPlusComma | Assets/Scripts/LucasAtributesCollection.cs:268-275 | for a non-empty label list, "every label followed by a comma" is the comma join plus one trailing comma. This is why removing one character gives the join |
| DisplayNames.DisplayNameOfParameterless | Assets/Scripts/LucasAtributesCollection.cs:263-279 | a method without parameters is labelled `name()` |
| DisplayNames.SplitJoin | Assets/Scripts/LucasAtributesCollection.cs:268-275 | when no label contains a comma, splitting the join at commas gives back exactly the labels: one comma between entries and none elsewhere |
| DisplayNames.RegisteredLabelHasNoComma | Assets/Scripts/LucasAtributesCollection.cs:70-80 | a registered type label followed by a comma-free parameter name contains no comma |
| DisplayNames.DisplayNameDeterminesLabels | Assets/Scripts/LucasAtributesCollection.cs:263-290 | when no label contains a comma, the button label starts with `name(`, ends with `)`, and what lies between splits into the parameter labels in order. The condition can fail for an unregistered generic type: its `Type.ToString()` lists the type arguments separated by commas, for example ``Dictionary`2[System.String,System.Int32]``. For such a method the label does not determine the parameter labels |
| DisplayNames.MethodUIDCollides | Assets/Scripts/LucasAtributesCollection.cs:292-304 | MethodUID puts nothing between one parameter and the next, so it is not injective: `f(A a, B b)` and `f(A aB_b)` share the id `f_A_aB_b)` |
| Dispatch.DrawParameterInfo | Assets/Scripts/LucasAtributesCollection.cs:179-195 | a drawable row calls its parameter's drawer. The drawer is shown the current value, or the resolved default when the current value is null. What the drawer returns becomes the row's value |
| Dispatch.Reached | Assets/Scripts/LucasAtributesCollection.cs:148-161 | the number of targets the invoke loop reaches: all of them when none throws, otherwise up to and including the first that throws |
| Dispatch.InvocationOrder | Assets/Scripts/LucasAtributesCollection.cs:145-162 | the invoked targets are the first `Reached` targets, in target order, each exactly once |
| Dispatch.AllTargetsInvoked | Assets/Scripts/LucasAtributesCollection.cs:145-162 | without a throw, every target is invoked once, in order |
| Dispatch.InvocationArgs | Assets/Scripts/LucasAtributesCollection.cs:151 | every invocation receives the same argument buffer |
| Dispatch.RoutedToOwnTarget | Assets/Scripts/LucasAtributesCollection.cs:153-160 | every non-invocation event directly follows the invocation that produced it. It is a coroutine started on that same target, or a log line carrying the `Method call result -> ` prefix |
| Dispatch.RoutedResults | Assets/Scripts/LucasAtributesCollection.cs:148-161 | for every reached target j, its invocation sits at position `InvokedAt(os, j)` with the shared buffer. Right after it comes: for an IEnumerator result r, `CoroutineStarted` of r on target j; for another non-null result, the log line `Method call result -> ` followed by its text; for a null result, nothing, so the next target's invocation follows, or the events end after the last target; for a throw, the end of the events |
| Dispatch.InvokeEventsLength | Assets/Scripts/LucasAtributesCollection.cs:148-161 | the loop emits nothing beyond the reached targets' invocations and their routed results: its length is `InvokedAt(os, Reached(os))` |
| Dispatch.InvokeStep | Assets/Scripts/LucasAtributesCollection.cs:148-161 | one iteration of the invoke loop: a throwing target ends the loop right after its invocation; any other target adds its invocation and its routed result |
| Dispatch.ButtonPassEffects | Assets/Scripts/LucasAtributesCollection.cs:124-163 | after one DrawButtonforMethod pass: the foldout flag is the GUI's answer; an open buffer holds the drawn values slot by slot, a closed one is untouched, and the length never changes; the button shows `DisplayName`; row i's drawer sees old slot i. A click invokes the reached targets in order with the buffer as edited in this same pass, and invoking leaves it unchanged. Without a click nothing is invoked; the pass fails exactly when a click meets a throw |
| Dispatch.RunPasses | Assets/Scripts/LucasAtributesCollection.cs:100-105 | after the first k iterations of the method loop, the states not yet reached are untouched |
| Dispatch.RunPassesOutcome | Assets/Scripts/LucasAtributesCollection.cs:100-105 | the method loop has thrown exactly when a pass it reached threw. Without a throw, each reached state is what its own pass made of it, and the events are the passes' events in method order |
| Dispatch.RunPassesStopsAtThrow | Assets/Scripts/LucasAtributesCollection.cs:100-105 | when method j is the first to throw, the pass has failed; states up to j are their passes' results; later states are untouched; the events end with method j's |
| Dispatch.RunPassesFailedStays | Assets/Scripts/LucasAtributesCollection.cs:100-105 | once a method has thrown, no later iteration changes anything |
| Dispatch.InspectorPassPositional | Assets/Scripts/LucasAtributesCollection.cs:100-122 | the whole pass fails exactly when some clicked method meets a throw. Without one, state i is what method i's own pass made of the old state i: states are keyed by position |
| Inspector.EditorButtonState.constructor | Assets/Scripts/LucasAtributesCollection.cs:44-52 | a new state is closed and has a fresh buffer of the given length, every slot null |
| Inspector.EditorButton.constructor | Assets/Scripts/LucasAtributesCollection.cs:54 | a new inspector has no state array yet |
| Inspector.EditorButton.CreateEditorButtonStates | Assets/Scripts/LucasAtributesCollection.cs:108-117 | a fresh array with exactly one fresh state per method, in method order. Each state is closed, its buffer has one null slot per parameter of its method, and states and buffers are pairwise distinct |
| Inspector.EditorButton.GetEditorButtonState | Assets/Scripts/LucasAtributesCollection.cs:119-122 | returns the state at the given position; the method argument plays no part |
| Inspector.EditorButton.DrawParameters | Assets/Scripts/LucasAtributesCollection.cs:132-143 | the row loop replaces slot i with row i's drawn value, in order; each row's drawer call is made with the old slot |
| Inspector.EditorButton.InvokeOnTargets | Assets/Scripts/LucasAtributesCollection.cs:145-162 | the target loop emits exactly `InvokeEvents` of its targets, buffer and outcomes, and reports failure exactly when some outcome throws |
| Inspector.EditorButton.DrawButtonforMethod | Assets/Scripts/LucasAtributesCollection.cs:124-163 | the state afterwards, the events and the failure flag are exactly those of `ButtonPass` applied to the state's view beforehand |
| Inspector.EditorButton.DrawMethodAt | Assets/Scripts/LucasAtributesCollection.cs:100-104 | one iteration of the method loop draws method k with state k and changes no other state |
| Inspector.EditorButton.DrawAllMethods | Assets/Scripts/LucasAtributesCollection.cs:100-105 | the method loop over existing states makes the states, events and failure flag of `RunPasses` over all methods, and leaves the array and its elements in place |
| Inspector.EditorButton.OnInspectorGUI | Assets/Scripts/LucasAtributesCollection.cs:93-105 | states are created only when there are none. Otherwise the same array and the same state objects are reused. The pass's states, events and failure flag are `InspectorPass` over the old states' views, or over the initial views when the states were just created |

## Left out

- GUI calls are not modelled. These are the `EditorGUILayout` and `GUILayout` calls, the foldout, the indent level and horizontal layout groups. Their answers are the `PassInput` of each pass.
- `LabelDrawer` (lines 28-38) is not part of this model. It only toggles `GUI.enabled` around a property field.
- Reflection is not modelled: `GetMembers`, `Attribute.IsDefined` and `GetParameters`. The tagged methods are the `methods` input and the selected targets the `targets` input.
- `MethodInfo.Invoke` is not executed. Its outcome on each target is an input: null, an IEnumerator, another value given by its text, or a throw.
- Invocation is modelled as not writing back into the buffer. The reflection layer can write `ref`/`out` arguments back into the array it is given; those parameters are not modelled.
- Coroutine execution and `Debug.Log` are not modelled; they are recorded as `CoroutineStarted` and `Logged` events.
- The value conversions in the drawers are not modelled: `Convert.ToSingle` (line 220), the casts, the Quaternion-Euler round trip (line 260), and the Color and Vector types. They are floating-point or library code. A drawer's returned value is an opaque input.
- Default values: a declared default is an `Option<Value>`. The reflection layer's `Missing` marker for optional parameters is not told apart from other defaults.
- `IsValueType` for kinds outside the known eight and UnityEngine.Object is a flag carried by `Other(typeName, isValueType)`, not derived from a type system. The flag means that `Activator.CreateInstance` of the type yields an object (line 174). So `Nullable<T>`, a struct for which it yields null, is written `Other(.., false)`. That is what puts it on the null branch of `DefaultValueResolution`, as in the source.
- `Other(typeName, _)` stands only for a type that is none of the eight table types and not a UnityEngine.Object type; those have their own cases. Nothing in the datatype enforces this, so lemmas such as `DrawerLookup` speak about kinds built that way.
- Dispatch.Admissible: requires that every parameter of an expanded method has a drawer. The source calls a null drawer for other types (line 190), which throws a NullReferenceException and ends the pass. An open state with such a parameter is outside the model.
- Dispatch.DrawParameterInfo: does not model the drawers' unboxing casts throwing on a null value.
  - A non-primitive struct parameter declared `= default` has a null declared default, which `GetDefaultValue` returns (line 170). Examples are `Vector3 offset = default` and `Color c = default`.
  - The casts `(Color)`, `(Vector2)`, `(Vector3)` and `(Quaternion)` (lines 240, 250, 255, 260) then throw a NullReferenceException, which ends the pass like a missing drawer. The model records the drawer call with the null value and carries on.
  - `int` and `bool` parameters declared `= default` get the constant 0 or false, so the casts at lines 225 and 230 do not meet a null this way.
  - The model still admits a declared default `Some(Null)` for any kind, for example `Int`, which the source cannot produce. Such inputs only add cases; they remove none that the source has.
- Inspector.EditorButton.OnInspectorGUI: requires reused states to have been created for methods with the same parameter counts, in the same order. This holds when the inspected type's tagged members do not change while the editor object lives, which the model assumes. Other cases are excluded, including some where the source does not throw: with fewer discovered methods than states, the loop at lines 100-105 visits only the first states; with a method that has fewer parameters than its buffer, the rows at lines 136-140 stay in bounds, and only a click can fail, inside `Invoke` (line 151).
- Inspector.EditorButton.OnInspectorGUI: requires one input per discovered method. The source re-enumerates the discovered members at each pass.
- Unity's editor multi-selection and serialisation of the inspector between passes are not modelled. The states persist as a field of one `EditorButton` object.
