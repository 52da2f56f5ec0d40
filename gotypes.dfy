/**
 * The slice of Go's static type system (go/types) and of struct tags
 * (fatih/structtag) that the generator inspects.  Types are a closed tree:
 * a named type carries its package path, its name and its underlying type.
 */
module GoTypes {

  datatype Option<T> = None | Some(value: T)

  /** The basic kinds of go/types, in the order Go declares them. */
  datatype BasicKind =
    | Invalid
    | Bool
    | Int | Int8 | Int16 | Int32 | Int64
    | Uint | Uint8 | Uint16 | Uint32 | Uint64 | Uintptr
    | Float32 | Float64
    | Complex64 | Complex128
    | String
    | UnsafePointer
    | UntypedBool | UntypedInt | UntypedRune | UntypedFloat
    | UntypedComplex | UntypedString | UntypedNil

  datatype GoType =
    | Basic(kind: BasicKind)
    | Pointer(elem: GoType)
    | Slice(elem: GoType)
    | Map(key: GoType, value: GoType)
    | Named(pkg: string, name: string, underlying: GoType)
    | Struct(fields: seq<Field>)
    | Signature                 // a func type; its parameters play no part
    | Other(desc: string)       // interface, array or channel types

  /** One struct field with its pre-parsed tag. */
  datatype Field = Field(name: string, typ: GoType, tag: Tag)

  /** A field as go/types sees it, without its tag. */
  datatype Var = Var(name: string, typ: GoType)

  /** The `mapstructure:"name,squash"` tag. */
  datatype MsTag = MsTag(name: string, squash: bool)

  /**
   * The tag keys the generator reads: `mapstructure`, the option
   * `self-defined` under the empty key, and the `cty` key it writes.
   */
  datatype Tag = Tag(mapstructure: Option<MsTag>, selfDefined: bool, cty: Option<string>)

  predicate IsUpper(c: char) { 'A' <= c <= 'Z' }
  predicate IsLower(c: char) { 'a' <= c <= 'z' }
  predicate IsDigit(c: char) { '0' <= c <= '9' }

  /** Go exports an identifier whose first letter is upper case. */
  predicate Exported(name: string) { |name| > 0 && IsUpper(name[0]) }

  /** A field tagged `mapstructure:",squash"`. */
  predicate IsSquash(tag: Tag) {
    tag.mapstructure.Some? && tag.mapstructure.value.squash
  }

  /** How go/types prints a named type: its package path, a dot, its name. */
  function QualifiedName(pkg: string, name: string): (r: string)
    ensures pkg == "" ==> r == name
    ensures pkg != "" ==> |r| == |pkg| + 1 + |name| && r[|pkg|] == '.' && r[..|pkg|] == pkg && r[|pkg| + 1..] == name
  {
    if pkg == "" then name else pkg + "." + name
  }

  /** A measure on types, used to show that every traversal terminates. */
  function Size(t: GoType): nat {
    match t
    case Basic(_) => 1
    case Pointer(e) => 1 + Size(e)
    case Slice(e) => 1 + Size(e)
    case Map(k, v) => 1 + Size(k) + Size(v)
    case Named(_, _, u) => 1 + Size(u)
    case Struct(fs) => 1 + FieldsSize(fs)
    case Signature => 1
    case Other(_) => 1
  }

  function FieldsSize(fs: seq<Field>): nat {
    if fs == [] then 0 else Size(fs[0].typ) + FieldsSize(fs[1..])
  }

  lemma {:induction false} FieldsSizeBound(fs: seq<Field>, i: nat)
    requires i < |fs|
    ensures Size(fs[i].typ) < FieldsSize(fs) + 1
    ensures FieldsSize(fs[i + 1..]) < FieldsSize(fs[i..])
  {
    if i > 0 {
      FieldsSizeBound(fs[1..], i - 1);
      assert fs[1..][i - 1..] == fs[i..];
      assert fs[1..][i..] == fs[i + 1..];
    }
  }

  /**
   * The underlying type: a named type's declared structure, every other
   * type itself.
   */
  function Underlying(t: GoType): (r: GoType)
    ensures !r.Named?
    ensures Size(r) <= Size(t)
    ensures t.Named? ==> Size(r) < Size(t)
    ensures !t.Named? ==> r == t
  {
    match t
    case Named(_, _, u) => Underlying(u)
    case _ => t
  }

  /** Strips a single level of pointer, as the flattening and lowering both do. */
  function StripPointer(t: GoType): (r: GoType)
    ensures Size(r) <= Size(t)
    ensures t.Pointer? ==> Size(r) < Size(t)
  {
    if t.Pointer? then t.elem else t
  }
}
