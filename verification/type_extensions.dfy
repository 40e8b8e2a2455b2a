/**
 Searches along a type's base-type chain: finding a declared field by name,
 and deciding whether a type is assignable from a generic type definition.
 A type is a record of what reflection reports about it; its base type is
 part of the record, so every chain is finite and acyclic.
 */
module TypeExtensions {
  import opened Results

  /** A field as `GetDeclaredField` reports it. */
  datatype Field = Field(name: string, declaringType: string)

  /** An interface a type implements (`GetInterfaces` lists inherited ones
      too). `genericDefinition` is `Some(d)` when the interface is generic and
      `d` is the full name of its generic type definition. */
  datatype InterfaceRef = InterfaceRef(fullName: string, genericDefinition: Option<string>)

  /** A type: its full name, the fields it declares itself, every interface it
      implements, its generic type definition when it is generic (a generic
      definition is its own definition), and its base type, if any. */
  datatype TypeRecord = TypeRecord(
    fullName: string,
    declaredFields: seq<Field>,
    interfaces: seq<InterfaceRef>,
    genericDefinition: Option<string>,
    baseType: Option<TypeRecord>)

  /** The type, its base, its base's base, and so on up to the root. */
  function Chain(t: TypeRecord): (c: seq<TypeRecord>)
    ensures |c| >= 1 && c[0] == t
    ensures forall i | 0 <= i < |c| - 1 :: c[i].baseType == Some(c[i + 1])
    ensures c[|c| - 1].baseType.None?
  {
    match t.baseType
    case None => [t]
    case Some(b) => [t] + Chain(b)
  }

  /** The length of the chain starting at `t`, zero for no type. */
  function Depth(t: Option<TypeRecord>): nat {
    match t
    case None => 0
    case Some(r) => 1 + Depth(r.baseType)
  }

  lemma {:induction false} DepthIsChainLength(t: TypeRecord)
    ensures Depth(Some(t)) == |Chain(t)|
  {
    match t.baseType
    case None =>
    case Some(b) => DepthIsChainLength(b);
  }

  // ---------------------------------------------------------------------
  // GetField
  // ---------------------------------------------------------------------

  /** `GetTypeInfo().GetDeclaredField(name)`: a field this type itself
      declares under that exact name. */
  function DeclaredField(t: TypeRecord, name: string): (f: Option<Field>)
    ensures f.Some? ==> f.value in t.declaredFields && f.value.name == name
    ensures f.None? <==> forall i | 0 <= i < |t.declaredFields| :: t.declaredFields[i].name != name
  {
    FirstNamed(t.declaredFields, name)
  }

  function FirstNamed(fields: seq<Field>, name: string): (f: Option<Field>)
    ensures f.Some? ==> f.value in fields && f.value.name == name
    ensures f.None? <==> forall i | 0 <= i < |fields| :: fields[i].name != name
    decreases |fields|
  {
    if |fields| == 0 then None
    else if fields[0].name == name then Some(fields[0])
    else FirstNamed(fields[1..], name)
  }

  /** `GetField(type, fieldName)`: null for a null type or a null or empty
      name; otherwise the field declared by the most derived type of the chain
      that declares the name, or null when none does. */
  method GetField(t: Option<TypeRecord>, fieldName: Option<string>) returns (r: Option<Field>)
    ensures t.None? || fieldName.None? || fieldName == Some("") ==> r.None?
    ensures r.Some? ==>
              t.Some? && fieldName.Some? &&
              exists k | 0 <= k < |Chain(t.value)| ::
                && r == DeclaredField(Chain(t.value)[k], fieldName.value)
                && forall j | 0 <= j < k :: DeclaredField(Chain(t.value)[j], fieldName.value).None?
    ensures r.None? && t.Some? && fieldName.Some? && fieldName.value != "" ==>
              forall k | 0 <= k < |Chain(t.value)| :: DeclaredField(Chain(t.value)[k], fieldName.value).None?
  {
    if t.None? || fieldName.None? || fieldName.value == "" {
      return None;
    }
    var name := fieldName.value;
    ghost var chain := Chain(t.value);
    ghost var i := 0;
    var current := t;
    while current.Some?
      invariant 0 <= i <= |chain|
      invariant current.Some? <==> i < |chain|
      invariant current.Some? ==> current.value == chain[i]
      invariant forall j | 0 <= j < i :: DeclaredField(chain[j], name).None?
      decreases Depth(current)
    {
      var declared := DeclaredField(current.value, name);
      if declared.Some? {
        return declared;
      }
      if i + 1 < |chain| {
        assert chain[i].baseType == Some(chain[i + 1]);
      }
      current := current.value.baseType;
      i := i + 1;
    }
    return None;
  }

  // ---------------------------------------------------------------------
  // IsAssignableFromGenericType
  // ---------------------------------------------------------------------

  /** `t.IsAssignableFrom(g)` for class and interface types: `t` is `g`, one
      of `g`'s base types, or one of the interfaces `g` implements. */
  predicate IsAssignableFrom(t: TypeRecord, g: TypeRecord) {
    || (exists u | u in Chain(g) :: u.fullName == t.fullName)
    || (exists i | i in g.interfaces :: i.fullName == t.fullName)
  }

  /** `t.IsGenericType && t.GetGenericTypeDefinition() == g`, by name. */
  predicate IsConstructedFrom(definition: Option<string>, g: TypeRecord) {
    definition == Some(g.fullName)
  }

  /** The checks made on one type of the chain, before moving to its base. */
  predicate DirectMatch(t: TypeRecord, g: TypeRecord) {
    || IsAssignableFrom(t, g)
    || (exists i | i in t.interfaces :: IsConstructedFrom(i.genericDefinition, g))
    || IsConstructedFrom(t.genericDefinition, g)
  }

  /** `IsAssignableFromGenericType(type, genericType)`. */
  function IsAssignableFromGenericType(t: TypeRecord, g: TypeRecord): (r: bool)
    ensures (exists i | i in t.interfaces :: IsConstructedFrom(i.genericDefinition, g)) ==> r
    ensures IsConstructedFrom(t.genericDefinition, g) ==> r
    ensures t.baseType.None? ==> (r <==> DirectMatch(t, g))
    decreases Depth(Some(t))
  {
    if IsAssignableFrom(t, g) then true
    else if exists i | i in t.interfaces :: IsConstructedFrom(i.genericDefinition, g) then true
    else if IsConstructedFrom(t.genericDefinition, g) then true
    else
      match t.baseType
      case None => false
      case Some(b) => IsAssignableFromGenericType(b, g)
  }

  /** The answer is whether some type of the chain passes the direct checks. */
  lemma {:induction false} GenericMatchOnChain(t: TypeRecord, g: TypeRecord)
    ensures IsAssignableFromGenericType(t, g) <==> exists u | u in Chain(t) :: DirectMatch(u, g)
    decreases Depth(Some(t))
  {
    match t.baseType
    case None =>
      assert Chain(t) == [t];
    case Some(b) =>
      GenericMatchOnChain(b, g);
      assert IsAssignableFromGenericType(t, g) == (DirectMatch(t, g) || IsAssignableFromGenericType(b, g));
      assert Chain(t) == [t] + Chain(b);
      assert forall u :: u in Chain(t) <==> u == t || u in Chain(b);
  }

  /** Upward closure: a type whose base type qualifies qualifies too. */
  lemma {:induction false} BaseMatchLifts(t: TypeRecord, g: TypeRecord)
    requires t.baseType.Some? && IsAssignableFromGenericType(t.baseType.value, g)
    ensures IsAssignableFromGenericType(t, g)
  {
  }
}
