/**
 * Spec lowering: `outputHCL2SpecField`, `basicKindToCtyType` and
 * `outputStructHCL2SpecBody`.  The generator writes each spec as Go
 * source text; here the spec is the tree that text denotes.
 */
module Lowering {
  import opened GoTypes
  import opened Unique
  import Accessors
  import Flatten

  /** The cty types a spec can ask for. */
  datatype CtyType = CtyBool | CtyString | CtyNumber | CtyList(elem: CtyType)

  /** The hcldec spec nodes the generator emits. */
  datatype Spec =
    | AttrSpec(name: string, typ: CtyType, required: bool)
    | BlockAttrsSpec(typeName: string, elementType: CtyType, required: bool)
    | BlockListSpec(typeName: string, nested: Spec)
    | BlockSpec(typeName: string, nested: Spec, required: bool)
    | BlockObjectSpec(typeName: string, nested: Spec, required: bool)
      /** `hcldec.ObjectSpec((*T)(nil).HCL2Spec())`: the spec of type T's flat copy. */
    | ObjectSpecOf(t: GoType)
      /** `(&T{}).HCL2Spec()`: a type that provides its own spec. */
    | SelfDefinedSpec(t: GoType)
      /** A spec followed by the "could not find type" TODO comment. */
    | Todo(spec: Spec)

  predicate IsNumberKind(k: BasicKind) {
    k in {Int, Int8, Int16, Int32, Int64, Uint, Uint8, Uint16, Uint32, Uint64,
          Float32, Float64, Complex64, Complex128}
  }

  /**
   * `basicKindToCtyType`: numbers for the integer, float and complex
   * kinds, bool for bool, and string for everything else (string itself,
   * but also `Invalid`, `uintptr` and the untyped kinds).
   */
  function BasicKindToCtyType(k: BasicKind): (r: CtyType)
    ensures r == CtyNumber <==> IsNumberKind(k)
    ensures r == CtyBool <==> k == Bool
    ensures r == CtyString <==> !IsNumberKind(k) && k != Bool
  {
    match k
    case Bool => CtyBool
    case String => CtyString
    case Int | Int8 | Int16 | Int32 | Int64
       | Uint | Uint8 | Uint16 | Uint32 | Uint64
       | Float32 | Float64 | Complex64 | Complex128 => CtyNumber
    case Invalid => CtyString
    case _ => CtyString
  }

  /** No node of the spec is required. */
  predicate NotRequired(s: Spec) {
    match s
    case AttrSpec(_, _, req) => !req
    case BlockAttrsSpec(_, _, req) => !req
    case BlockListSpec(_, nested) => NotRequired(nested)
    case BlockSpec(_, nested, req) => !req && NotRequired(nested)
    case BlockObjectSpec(_, nested, req) => !req && NotRequired(nested)
    case ObjectSpecOf(_) => true
    case SelfDefinedSpec(_) => true
    case Todo(inner) => NotRequired(inner)
  }

  /** The attribute and block names a spec uses. */
  function SpecNames(s: Spec): set<string> {
    match s
    case AttrSpec(name, _, _) => {name}
    case BlockAttrsSpec(name, _, _) => {name}
    case BlockListSpec(name, nested) => {name} + SpecNames(nested)
    case BlockSpec(name, nested, _) => {name} + SpecNames(nested)
    case BlockObjectSpec(name, nested, _) => {name} + SpecNames(nested)
    case ObjectSpecOf(_) => {}
    case SelfDefinedSpec(_) => {}
    case Todo(inner) => SpecNames(inner)
  }

  /** The printed names of the named types reachable through pointers, slices and names. */
  function NamedTypeNames(t: GoType): set<string> {
    match t
    case Pointer(e) => NamedTypeNames(e)
    case Slice(e) => NamedTypeNames(e)
    case Named(pkg, name, u) => {QualifiedName(pkg, name)} + NamedTypeNames(u)
    case _ => {}
  }

  lemma {:induction false} UnderlyingNames(t: GoType)
    ensures NamedTypeNames(Underlying(t)) <= NamedTypeNames(t)
  {
    if t.Named? {
      UnderlyingNames(t.underlying);
    }
  }

  /**
   * `outputHCL2SpecField`: the spec that reads a field of type `t` under
   * the name `accessor`.  Every node it builds is optional, and every name
   * in it is the accessor or the printed name of a named type in `t`.
   */
  function Lower(accessor: string, t: GoType, tag: Tag): (r: Spec)
    ensures NotRequired(r)
    ensures forall n | n in SpecNames(r) :: n == accessor || n in NamedTypeNames(t)
    decreases Size(t)
  {
    if tag.selfDefined then SelfDefinedSpec(t)
    else
      match t
      case Pointer(e) => Lower(accessor, e, tag)
      case Basic(k) => AttrSpec(accessor, BasicKindToCtyType(k), false)
      case Map(_, _) => BlockAttrsSpec(accessor, CtyString, false)
      case Slice(e0) =>
        var e := StripPointer(e0);
        (match e
         case Basic(k) => AttrSpec(accessor, CtyList(BasicKindToCtyType(k)), false)
         case Named(_, _, _) => BlockListSpec(accessor, Lower(accessor, e, tag))
         case Slice(_) => BlockListSpec(accessor, Lower(accessor, Underlying(e), tag))
         case _ => Lower(accessor, Underlying(e), tag))
      case Named(pkg, name, _) =>
        UnderlyingNames(t);
        if Underlying(t).Struct? then BlockSpec(accessor, ObjectSpecOf(t), false)
        else Lower(QualifiedName(pkg, name), Underlying(t), tag)
      case Struct(_) => BlockObjectSpec(accessor, ObjectSpecOf(t), false)
      case _ => Todo(AttrSpec(accessor, CtyBool, false))
  }

  /** A `self-defined` tag wins over the shape of the type. */
  lemma SelfDefinedFirst(accessor: string, t: GoType, tag: Tag)
    requires tag.selfDefined
    ensures Lower(accessor, t, tag) == SelfDefinedSpec(t)
  {
  }

  /** Any number of pointers around a type lower like the type itself. */
  lemma {:induction false} PointersTransparent(accessor: string, t: GoType, tag: Tag, depth: nat)
    requires !tag.selfDefined
    ensures Lower(accessor, Pointers(t, depth), tag) == Lower(accessor, t, tag)
  {
    if depth > 0 {
      PointersTransparent(accessor, t, tag, depth - 1);
    }
  }

  function Pointers(t: GoType, depth: nat): GoType {
    if depth == 0 then t else Pointer(Pointers(t, depth - 1))
  }

  /**
   * A basic type, under any number of pointers, gives an optional
   * attribute of its cty type, whatever the basic kind.
   */
  lemma LowerScalarShapes(accessor: string, tag: Tag, k: BasicKind, depth: nat)
    requires !tag.selfDefined
    ensures Lower(accessor, Pointers(Basic(k), depth), tag) == AttrSpec(accessor, BasicKindToCtyType(k), false)
  {
    PointersTransparent(accessor, Basic(k), tag, depth);
  }

  /**
   * A map gives optional string block attributes, and every type the
   * dispatch does not list (a func, an interface, an array, a channel)
   * gives an optional bool attribute marked TODO; under any number of
   * pointers alike.
   */
  lemma LowerOtherShapes(accessor: string, tag: Tag, t: GoType, depth: nat)
    requires !tag.selfDefined
    ensures t.Map? ==> Lower(accessor, Pointers(t, depth), tag) == BlockAttrsSpec(accessor, CtyString, false)
    ensures t.Signature? || t.Other? ==>
      Lower(accessor, Pointers(t, depth), tag) == Todo(AttrSpec(accessor, CtyBool, false))
  {
    PointersTransparent(accessor, t, tag, depth);
  }

  /**
   * The slice and struct shapes: a slice of a basic kind (pointed to or
   * not) is a list attribute; a slice of a named type (pointed to or not)
   * is a block list around the named type's own spec; a slice of slices is
   * a block list around the inner slice's spec; a named struct is a block
   * holding its flat copy's spec; any anonymous struct is an object block.
   */
  lemma LowerCompositeShapes(accessor: string, tag: Tag, k: BasicKind, e: GoType, fs: seq<Field>)
    requires !tag.selfDefined
    ensures Lower(accessor, Slice(Basic(k)), tag) == AttrSpec(accessor, CtyList(BasicKindToCtyType(k)), false)
    ensures Lower(accessor, Slice(Pointer(Basic(k))), tag) == AttrSpec(accessor, CtyList(BasicKindToCtyType(k)), false)
    ensures e.Named? ==> Lower(accessor, Slice(e), tag) == BlockListSpec(accessor, Lower(accessor, e, tag))
    ensures e.Named? ==> Lower(accessor, Slice(Pointer(e)), tag) == BlockListSpec(accessor, Lower(accessor, e, tag))
    ensures e.Named? && Underlying(e).Struct? ==> Lower(accessor, e, tag) == BlockSpec(accessor, ObjectSpecOf(e), false)
    ensures Lower(accessor, Slice(Slice(e)), tag) == BlockListSpec(accessor, Lower(accessor, Slice(e), tag))
    ensures Lower(accessor, Slice(Pointer(Slice(e))), tag) == BlockListSpec(accessor, Lower(accessor, Slice(e), tag))
    ensures Lower(accessor, Struct(fs), tag) == BlockObjectSpec(accessor, ObjectSpecOf(Struct(fs)), false)
  {
  }

  /**
   * A named type: a struct underneath gives a block under the accessor;
   * anything else underneath is lowered under the type's own printed
   * name, so the accessor plays no part in the result.
   */
  lemma NamedNonStructUsesTypeName(accessor: string, other: string, pkg: string, name: string, u: GoType, tag: Tag)
    requires !tag.selfDefined
    ensures Underlying(u).Struct? ==>
      Lower(accessor, Named(pkg, name, u), tag) == BlockSpec(accessor, ObjectSpecOf(Named(pkg, name, u)), false)
    ensures !Underlying(u).Struct? ==>
      Lower(accessor, Named(pkg, name, u), tag) == Lower(QualifiedName(pkg, name), Underlying(u), tag)
    ensures !Underlying(u).Struct? ==>
      Lower(accessor, Named(pkg, name, u), tag) == Lower(other, Named(pkg, name, u), tag)
  {
  }

  /**
   * A slice whose element, after one pointer is stripped, is neither
   * basic, named nor a slice gets no list wrapper: it lowers like its
   * element (a slice of maps like one map, a slice of structs like one
   * struct, a slice of funcs like one func).
   */
  lemma SliceOfOtherUnwrapped(accessor: string, e: GoType, tag: Tag)
    requires !tag.selfDefined
    ensures var x := StripPointer(e);
      !x.Basic? && !x.Named? && !x.Slice? ==> Lower(accessor, Slice(e), tag) == Lower(accessor, x, tag)
  {
  }

  /**
   * `makePointer` adds a pointer and does not change what the field
   * lowers to: the flat struct is optional without changing its spec.
   */
  lemma MakePointerKeepsSpec(accessor: string, f: Field)
    requires !f.tag.selfDefined
    ensures Lower(accessor, Flatten.MakePointer(f).typ, f.tag) == Lower(accessor, f.typ, f.tag)
  {
  }

  /** The key a field of the flat struct is read under. */
  function CtyName(f: Field): string {
    if f.tag.cty.Some? then f.tag.cty.value else ""
  }

  /**
   * `outputStructHCL2SpecBody`: the entries of the spec map literal, one
   * per field, keyed by the field's `cty` name.  Every field must carry a
   * `cty` tag: the generator dereferences it.
   */
  method StructSpecBody(s: seq<Field>) returns (entries: seq<(string, Spec)>)
    requires forall i | 0 <= i < |s| :: s[i].tag.cty.Some?
    ensures entries == SpecEntries(s)
    ensures forall i | 0 <= i < |s| :: entries[i].0 == s[i].tag.cty.value && NotRequired(entries[i].1)
  {
    entries := [];
    for i := 0 to |s|
      invariant |entries| == i
      invariant forall k | 0 <= k < i ::
        entries[k].0 == s[k].tag.cty.value && entries[k].1 == Lower(s[k].tag.cty.value, s[k].typ, s[k].tag)
    {
      var field, tag := s[i], s[i].tag;
      var ctyName := tag.cty.value;
      entries := entries + [(ctyName, Lower(ctyName, field.typ, tag))];
    }
  }

  /** The entries of a spec map literal, as `outputStructHCL2SpecBody` writes them. */
  function SpecEntries(s: seq<Field>): (r: seq<(string, Spec)>)
    ensures |r| == |s|
  {
    seq(|s|, i requires 0 <= i < |s| => (CtyName(s[i]), Lower(CtyName(s[i]), s[i].typ, s[i].tag)))
  }

  /**
   * A struct whose `cty` names are distinct gives a map literal whose keys
   * are distinct, so the generated Go source declares each key once.
   */
  lemma SpecKeysDistinct(s: seq<Field>)
    requires forall i | 0 <= i < |s| :: s[i].tag.cty.Some?
    requires Distinct(s, ByCty)
    ensures forall i, j | 0 <= i < j < |s| :: SpecEntries(s)[i].0 != SpecEntries(s)[j].0
  {
    forall i, j | 0 <= i < j < |s| ensures SpecEntries(s)[i].0 != SpecEntries(s)[j].0 {
      assert KeyOf(s[i], ByCty) != KeyOf(s[j], ByCty);
    }
  }

  /**
   * The spec of a flat struct: one entry per field, keyed by the field's
   * accessor, no key twice, and nothing required.
   */
  lemma FlatStructSpec(fs: seq<Field>)
    ensures var s := Accessors.FlatStruct(fs);
      (forall i | 0 <= i < |s| :: s[i].tag.cty.Some? && SpecEntries(s)[i].0 == s[i].tag.cty.value && NotRequired(SpecEntries(s)[i].1)) &&
      (forall i, j | 0 <= i < j < |s| :: SpecEntries(s)[i].0 != SpecEntries(s)[j].0)
  {
    Accessors.FlatStructWellFormed(fs);
    SpecKeysDistinct(Accessors.FlatStruct(fs));
  }
}
