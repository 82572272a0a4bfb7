/** Parameter kinds, boxed runtime values and the two type-keyed tables of the
    button inspector: the drawer table and the display-label table, together with
    default-value resolution and the ordered drawer lookup. */
module Registry {

  datatype Option<T> = None | Some(value: T)

  /** The declared type of a method parameter, as far as the inspector tells types apart. */
  datatype ParamKind =
    | Float
    | Int
    | String
    | Bool
    | Color
    | Vector2
    | Vector3
    | Quaternion
      /** Any type derived from UnityEngine.Object; `subtype` is its full type name. */
    | UnityObject(subtype: string)
      /** Any other type. `isValueType` holds when `Activator.CreateInstance` of the
          type yields an object: a struct or an enum, but not `Nullable<T>`, for
          which it yields null, and not a class. It never names one of the eight
          kinds above or a UnityEngine.Object type, which have their own cases. */
    | Other(typeName: string, isValueType: bool)

  /** A boxed runtime object: null, the zero value `Activator.CreateInstance` makes for
      a value type, or some other object whose runtime type is `kind` (payload opaque). */
  datatype Value = Null | ZeroOf(kind: ParamKind) | Boxed(kind: ParamKind, payload: nat)

  /** A discovered parameter; `explicitDefault` is None when the declaration has no
      default (the reflection layer reports DBNull), and may be Some(Null). */
  datatype Parameter = Parameter(name: string, kind: ParamKind, explicitDefault: Option<Value>)

  /** A discovered method carrying the button tag: its name and ordered parameters. */
  datatype MethodInfo = MethodInfo(name: string, parameters: seq<Parameter>)

  /** The editor widgets a parameter can be drawn with. */
  datatype Drawer =
    | FloatField | IntField | TextField | Toggle | ColorField
    | Vector3Field | Vector2Field | QuaternionField | ObjectField

  /** Exact-match table from parameter kind to drawer. */
  const TypeDrawer: map<ParamKind, Drawer> := map[
    Float := FloatField,
    Int := IntField,
    String := TextField,
    Bool := Toggle,
    Color := ColorField,
    Vector3 := Vector3Field,
    Vector2 := Vector2Field,
    Quaternion := QuaternionField
  ]

  /** Exact-match table from parameter kind to its short display label. */
  const TypeDisplayName: map<ParamKind, string> := map[
    Float := "float",
    Int := "int",
    String := "string",
    Bool := "bool",
    Color := "Color",
    Vector3 := "Vector3",
    Vector2 := "Vector2",
    Quaternion := "Quaternion"
  ]

  /** Whether UnityEngine.Object is assignable from the kind. */
  predicate IsUnityObject(k: ParamKind) {
    k.UnityObject?
  }

  /** Whether the type is a .NET value type whose `Activator.CreateInstance` is an
      object (a primitive, a struct or an enum other than `Nullable<T>`); this is
      when GetDefaultValue returns a zero value rather than null. */
  predicate IsValueType(k: ParamKind) {
    match k
    case String => false
    case UnityObject(_) => false
    case Other(_, valueType) => valueType
    case _ => true
  }

  /** The type's own textual name, as `Type.ToString()` gives it. */
  function TypeName(k: ParamKind): string {
    match k
    case Float => "System.Single"
    case Int => "System.Int32"
    case String => "System.String"
    case Bool => "System.Boolean"
    case Color => "UnityEngine.Color"
    case Vector2 => "UnityEngine.Vector2"
    case Vector3 => "UnityEngine.Vector3"
    case Quaternion => "UnityEngine.Quaternion"
    case UnityObject(subtype) => subtype
    case Other(typeName, _) => typeName
  }

  /** GetDefaultValue: the explicit default if declared, else the zero value of a
      value type, else null. */
  function GetDefaultValue(parameter: Parameter): Value {
    match parameter.explicitDefault
    case Some(v) => v
    case None => if IsValueType(parameter.kind) then ZeroOf(parameter.kind) else Null
  }

  /** GetParameterDrawer: the object picker for UnityEngine.Object kinds first, then
      the exact-match table, else none. */
  function GetParameterDrawer(parameter: Parameter): Option<Drawer> {
    if IsUnityObject(parameter.kind) then Some(ObjectField)
    else if parameter.kind in TypeDrawer then Some(TypeDrawer[parameter.kind])
    else None
  }

  /** A parameter the inspector can draw without failing. */
  predicate Drawable(parameter: Parameter) {
    GetParameterDrawer(parameter).Some?
  }

  /** The precedence of default resolution, and when it yields null. */
  lemma DefaultValueResolution(p: Parameter)
    ensures p.explicitDefault.Some? ==> GetDefaultValue(p) == p.explicitDefault.value
    ensures p.explicitDefault.None? && IsValueType(p.kind) ==> GetDefaultValue(p) == ZeroOf(p.kind)
    ensures p.explicitDefault.None? && !IsValueType(p.kind) ==> GetDefaultValue(p) == Null
    ensures GetDefaultValue(p) == Null <==>
              p.explicitDefault == Some(Null) || (p.explicitDefault.None? && !IsValueType(p.kind))
  {
  }

  /** Of the drawable kinds, exactly string and UnityEngine.Object kinds resolve to
      null when they declare no default; every other drawable kind gets its zero value. */
  lemma UndeclaredDefaultOfDrawable(p: Parameter)
    requires Drawable(p) && p.explicitDefault.None?
    ensures GetDefaultValue(p) == Null <==> p.kind == String || p.kind.UnityObject?
    ensures GetDefaultValue(p) != Null ==> GetDefaultValue(p) == ZeroOf(p.kind)
  {
  }

  /** Lookup order: the object picker wins for every UnityEngine.Object kind and is
      used for nothing else; other kinds are drawn exactly when the table has them,
      by the table's drawer; only Other kinds have no drawer. */
  lemma DrawerLookup(p: Parameter)
    ensures IsUnityObject(p.kind) ==> GetParameterDrawer(p) == Some(ObjectField)
    ensures GetParameterDrawer(p) == Some(ObjectField) ==> IsUnityObject(p.kind)
    ensures !IsUnityObject(p.kind) ==> (GetParameterDrawer(p).Some? <==> p.kind in TypeDrawer)
    ensures !IsUnityObject(p.kind) && p.kind in TypeDrawer ==> GetParameterDrawer(p) == Some(TypeDrawer[p.kind])
    ensures Drawable(p) <==> !p.kind.Other?
  {
  }

  /** The label table is keyed by exactly the same eight kinds as the drawer table. */
  lemma TablesShareKeys()
    ensures TypeDrawer.Keys == TypeDisplayName.Keys
    ensures TypeDrawer.Keys == KnownKinds
    ensures |TypeDrawer.Keys| == 8
  {
    DrawerKeys();
    DisplayNameKeys();
    KnownKindsCount();
  }

  /** The eight kinds both tables register. */
  const KnownKinds: set<ParamKind> := {Float, Int, String, Bool, Color, Vector3, Vector2, Quaternion}

  lemma DrawerKeys()
    ensures TypeDrawer.Keys == KnownKinds
  {
  }

  lemma DisplayNameKeys()
    ensures TypeDisplayName.Keys == KnownKinds
  {
  }

  lemma KnownKindsCount()
    ensures |KnownKinds| == 8
  {
  }
}
