/** The button label of a method — its name and parameter labels — and the
    method's unique-id string. */
module DisplayNames {
  import opened Registry

  /** The label of a parameter's type: the table's short label when the type is
      registered, otherwise the type's own textual name. */
  function TypeLabel(k: ParamKind): string {
    if k in TypeDisplayName then TypeDisplayName[k] else TypeName(k)
  }

  /** MethodParameterDisplayName: the type label, one space, the parameter's name. */
  function MethodParameterDisplayName(p: Parameter): string {
    TypeLabel(p.kind) + " " + p.name
  }

  /** The parameter labels of a parameter list, in order. */
  function Labels(ps: seq<Parameter>): (ls: seq<string>)
    ensures |ls| == |ps|
    ensures forall i :: 0 <= i < |ps| ==> ls[i] == MethodParameterDisplayName(ps[i])
  {
    seq(|ps|, i requires 0 <= i < |ps| => MethodParameterDisplayName(ps[i]))
  }

  /** The entries separated by single commas, with no separator before the first
      entry or after the last. */
  function Join(ls: seq<string>): string
    decreases |ls|
  {
    if |ls| == 0 then ""
    else if |ls| == 1 then ls[0]
    else ls[0] + "," + Join(ls[1..])
  }

  /** Every entry followed by a comma: what the string builder holds before the
      trailing comma is removed. */
  function Terminated(ls: seq<string>): string
    decreases |ls|
  {
    if ls == [] then "" else ls[0] + "," + Terminated(ls[1..])
  }

  /** The label the invoke button shows: `name(label,label,...)`. */
  function DisplayName(m: MethodInfo): string {
    m.name + "(" + Join(Labels(m.parameters)) + ")"
  }

  lemma {:induction false} TerminatedSnoc(ls: seq<string>, l: string)
    ensures Terminated(ls + [l]) == Terminated(ls) + l + ","
    decreases |ls|
  {
    if ls != [] {
      assert (ls + [l])[1..] == ls[1..] + [l];
      TerminatedSnoc(ls[1..], l);
    }
  }

  /** Removing the last character of a non-empty terminated list gives the join. */
  lemma {:induction false} TerminatedIsJoinPlusComma(ls: seq<string>)
    requires ls != []
    ensures Terminated(ls) == Join(ls) + ","
    decreases |ls|
  {
    if |ls| > 1 {
      TerminatedIsJoinPlusComma(ls[1..]);
    }
  }

  /** MethodDisplayName: appends `name(`, then each parameter label followed by a
      comma, drops the last comma when there were parameters, then appends `)`. */
  method MethodDisplayName(m: MethodInfo) returns (s: string)
    ensures s == DisplayName(m)
  {
    var sb := m.name + "(";
    var methodParams := m.parameters;
    ghost var labels := Labels(methodParams);
    var i := 0;
    while i < |methodParams|
      invariant 0 <= i <= |methodParams|
      invariant sb == m.name + "(" + Terminated(labels[..i])
    {
      TerminatedSnoc(labels[..i], labels[i]);
      assert labels[..i + 1] == labels[..i] + [labels[i]];
      sb := sb + MethodParameterDisplayName(methodParams[i]);
      sb := sb + ",";
      i := i + 1;
    }
    assert labels[..i] == labels;
    if |methodParams| > 0 {
      TerminatedIsJoinPlusComma(labels);
      assert sb == m.name + "(" + Join(labels) + ",";
      sb := sb[..|sb| - 1];
    }
    sb := sb + ")";
    s := sb;
  }

  /** A parameterless method is labelled `name()`. */
  lemma DisplayNameOfParameterless(m: MethodInfo)
    requires m.parameters == []
    ensures DisplayName(m) == m.name + "()"
  {
  }

  /** A parameter label splits back into its type label and its name at the one
      space that follows the type label. */
  lemma ParameterLabelParts(p: Parameter)
    ensures MethodParameterDisplayName(p)[..|TypeLabel(p.kind)|] == TypeLabel(p.kind)
    ensures MethodParameterDisplayName(p)[|TypeLabel(p.kind)|] == ' '
    ensures MethodParameterDisplayName(p)[|TypeLabel(p.kind)| + 1..] == p.name
    ensures p.kind in TypeDisplayName ==> TypeLabel(p.kind) == TypeDisplayName[p.kind]
    ensures p.kind !in TypeDisplayName ==> TypeLabel(p.kind) == TypeName(p.kind)
  {
    var t := TypeLabel(p.kind);
    assert MethodParameterDisplayName(p) == t + " " + p.name;
  }

  /** Position of the first comma, or the length when there is none. */
  function IndexOfComma(s: string): (i: nat)
    ensures i <= |s|
    ensures i < |s| ==> s[i] == ','
    ensures forall j :: 0 <= j < i ==> s[j] != ','
  {
    if s == [] then 0 else if s[0] == ',' then 0 else 1 + IndexOfComma(s[1..])
  }

  /** The pieces of a string between commas. */
  function Split(s: string): seq<string>
    decreases |s|
  {
    var i := IndexOfComma(s);
    if i == |s| then [s] else [s[..i]] + Split(s[i + 1..])
  }

  lemma IndexOfCommaAfterEntry(l: string, rest: string)
    requires ',' !in l
    ensures IndexOfComma(l + "," + rest) == |l|
  {
    var s := l + "," + rest;
    assert s[|l|] == ',';
  }

  lemma NoCommaSplit(l: string)
    requires ',' !in l
    ensures Split(l) == [l]
  {
  }

  /** Joining is undone by splitting at commas whenever no entry contains a comma:
      the entries are separated by exactly one comma each and nothing else. */
  lemma {:induction false} SplitJoin(ls: seq<string>)
    requires ls != []
    requires forall i :: 0 <= i < |ls| ==> ',' !in ls[i]
    ensures Split(Join(ls)) == ls
    decreases |ls|
  {
    if |ls| == 1 {
      NoCommaSplit(ls[0]);
    } else {
      var rest := Join(ls[1..]);
      IndexOfCommaAfterEntry(ls[0], rest);
      var s := ls[0] + "," + rest;
      assert s[..|ls[0]|] == ls[0];
      assert s[|ls[0]| + 1..] == rest;
      SplitJoin(ls[1..]);
    }
  }

  /** A registered type label and a parameter name without commas give a label
      without commas. */
  lemma RegisteredLabelHasNoComma(p: Parameter)
    requires p.kind in TypeDisplayName && ',' !in p.name
    ensures ',' !in MethodParameterDisplayName(p)
  {
    assert ',' !in TypeLabel(p.kind);
  }

  /** When no parameter label contains a comma, the button label determines the
      method name and every parameter label, in order. */
  lemma {:induction false} DisplayNameDeterminesLabels(m: MethodInfo)
    requires m.parameters != []
    requires forall i :: 0 <= i < |m.parameters| ==> ',' !in MethodParameterDisplayName(m.parameters[i])
    ensures DisplayName(m)[..|m.name| + 1] == m.name + "("
    ensures DisplayName(m)[|DisplayName(m)| - 1] == ')'
    ensures Split(DisplayName(m)[|m.name| + 1..|DisplayName(m)| - 1]) == Labels(m.parameters)
  {
    var ls := Labels(m.parameters);
    var d := DisplayName(m);
    assert d == m.name + "(" + Join(ls) + ")";
    assert d[|m.name| + 1..|d| - 1] == Join(ls);
    SplitJoin(ls);
  }

  /** MethodUID: the name, an underscore, then per parameter its type name, an
      underscore and its name (with nothing between parameters), then `)`. */
  function MethodUID(m: MethodInfo): string {
    m.name + "_" + UidParts(m.parameters) + ")"
  }

  function UidParts(ps: seq<Parameter>): string
    decreases |ps|
  {
    if ps == [] then "" else TypeName(ps[0].kind) + "_" + ps[0].name + UidParts(ps[1..])
  }

  /** The unique id is not injective: since parameters are not separated from
      each other, a two-parameter method and a one-parameter method can share it. */
  lemma MethodUIDCollides()
    ensures var a := MethodInfo("f", [Parameter("a", Other("A", false), None), Parameter("b", Other("B", false), None)]);
            var b := MethodInfo("f", [Parameter("aB_b", Other("A", false), None)]);
            a != b && MethodUID(a) == MethodUID(b)
  {
    var a := MethodInfo("f", [Parameter("a", Other("A", false), None), Parameter("b", Other("B", false), None)]);
    var b := MethodInfo("f", [Parameter("aB_b", Other("A", false), None)]);
    assert a.parameters[1..][1..] == [];
    assert UidParts(a.parameters) == "A_aB_b";
    assert UidParts(b.parameters) == "A_aB_b";
  }
}
