/**
 * Squash flattening: `getMapstructureSquashedStruct` and its helpers.
 * The fields of a struct are walked in declaration order; unexported
 * fields and fields declared with a bare func type are dropped (a pointer
 * to a func and a named func type are kept), a `mapstructure:",squash"` field is
 * replaced by the flattened fields of its struct, and every other field
 * has its type normalised so that everything is optional.  After every
 * step the accumulated struct is deduplicated by field name.
 */
module Flatten {
  import opened GoTypes
  import opened Unique

  /** Types whose flat form is fixed by an override table. */
  const DurationType := "time.Duration"
  const TrileanType := "github.com/hashicorp/packer/helper/config.Trilean"
  const ExecutionPolicyType := "github.com/hashicorp/packer/provisioner/powershell.ExecutionPolicy"

  function Override(qualified: string): Option<GoType> {
    if qualified == DurationType then Some(Pointer(Basic(String)))
    else if qualified == TrileanType then Some(Pointer(Basic(Bool)))
    else if qualified == ExecutionPolicyType then Some(Pointer(Basic(String)))
    else None
  }

  /** The name of the flat copy of a type. */
  function FlatName(name: string): (r: string)
    ensures |r| == |name| + 4 && r[..4] == "Flat" && r[4..] == name
  {
    "Flat" + name
  }

  /** Distinct originals get distinct flat names. */
  lemma FlatNameInjective(a: string, b: string)
    ensures FlatName(a) == FlatName(b) <==> a == b
  {
    if FlatName(a) == FlatName(b) {
      assert a == FlatName(a)[4..] == FlatName(b)[4..] == b;
    }
  }

  /** A named type whose underlying type is a struct. */
  predicate IsNamedStruct(t: GoType) {
    t.Named? && Underlying(t).Struct?
  }

  /** `flattenNamed`: the same struct under the name "Flat" + name. */
  function FlattenNamed(t: GoType): (r: GoType)
    requires t.Named?
    ensures r.Named? && r.pkg == t.pkg && r.name == FlatName(t.name) && Underlying(r) == Underlying(t)
  {
    Named(t.pkg, FlatName(t.name), Underlying(t))
  }

  /** `makePointer`: the same field under one more pointer. */
  function MakePointer(f: Field): (r: Field)
    ensures r.name == f.name && r.tag == f.tag
    ensures r.typ.Pointer? && StripPointer(r.typ) == f.typ && PointerDepth(r.typ) == PointerDepth(f.typ) + 1
  {
    f.(typ := Pointer(f.typ))
  }

  /** How deeply `t` is wrapped in pointers. */
  function PointerDepth(t: GoType): nat {
    if t.Pointer? then 1 + PointerDepth(t.elem) else 0
  }

  /**
   * The type a kept field gets in the flat struct: one pointer stripped,
   * basics and named structs wrapped in exactly one pointer, named structs
   * renamed to their flat copy, slices of named structs pointed at the
   * flat copy, and the override table applied.
   */
  function Normalize(t: GoType): (r: GoType)
    ensures PointerDepth(t) <= 2 ==> PointerDepth(r) <= 1
  {
    var x := StripPointer(t);
    match x
    case Named(pkg, name, _) =>
      var u := Underlying(x);
      if u.Struct? then Pointer(FlattenNamed(x))
      else if u.Slice? && IsNamedStruct(u.elem) then Slice(FlattenNamed(u.elem))
      else if Override(QualifiedName(pkg, name)).Some? then Override(QualifiedName(pkg, name)).value
      else x
    case Slice(e) => if IsNamedStruct(e) then Slice(FlattenNamed(e)) else x
    case Basic(_) => Pointer(x)
    case _ => x
  }

  /**
   * The normalisation, case by case, seen from the declared field type.
   * One pointer around any type that is not itself a pointer is dropped
   * before the cases apply, so `*[]T`, `*[]string` and `*time.Duration`
   * normalise like `[]T`, `[]string` and `time.Duration`.
   */
  lemma NormalizeCases(t: GoType)
    ensures forall k :: t == Basic(k) || t == Pointer(Basic(k)) ==> Normalize(t) == Pointer(Basic(k))
    ensures IsNamedStruct(t) ==> Normalize(t) == Pointer(Named(t.pkg, "Flat" + t.name, Underlying(t)))
    ensures t.Pointer? && IsNamedStruct(t.elem) ==>
      Normalize(t) == Pointer(Named(t.elem.pkg, "Flat" + t.elem.name, Underlying(t.elem)))
    ensures t.Slice? && IsNamedStruct(t.elem) ==>
      Normalize(t) == Slice(Named(t.elem.pkg, "Flat" + t.elem.name, Underlying(t.elem)))
    ensures t.Named? && Underlying(t).Slice? && IsNamedStruct(Underlying(t).elem) ==>
      var n := Underlying(t).elem; Normalize(t) == Slice(Named(n.pkg, "Flat" + n.name, Underlying(n)))
    ensures t.Map? || (t.Pointer? && t.elem.Map?) ==> Normalize(t) == StripPointer(t)
    ensures t.Slice? && t.elem.Basic? ==> Normalize(t) == t
    ensures t.Slice? && t.elem.Pointer? ==> Normalize(t) == t
    ensures t.Pointer? && t.elem.Signature? ==> Normalize(t) == Signature
    ensures t.Pointer? && t.elem.Slice? && t.elem.elem.Basic? ==> Normalize(t) == t.elem
    ensures !t.Pointer? ==> Normalize(Pointer(t)) == Normalize(t)
  {
  }

  /**
   * The override table, for named types that are not structs or slices of
   * named structs; a pointer to such a type normalises the same way.
   */
  lemma NormalizeOverride(pkg: string, name: string, u: GoType)
    requires !Underlying(u).Struct? && !(Underlying(u).Slice? && IsNamedStruct(Underlying(u).elem))
    ensures QualifiedName(pkg, name) == DurationType ==> Normalize(Named(pkg, name, u)) == Pointer(Basic(String))
    ensures QualifiedName(pkg, name) == TrileanType ==> Normalize(Named(pkg, name, u)) == Pointer(Basic(Bool))
    ensures QualifiedName(pkg, name) == ExecutionPolicyType ==> Normalize(Named(pkg, name, u)) == Pointer(Basic(String))
    ensures Override(QualifiedName(pkg, name)).None? ==> Normalize(Named(pkg, name, u)) == Named(pkg, name, u)
    ensures Normalize(Pointer(Named(pkg, name, u))) == Normalize(Named(pkg, name, u))
  {
  }

  // ---------------------------------------------------------------------
  // The specification of the walk

  /** What one field of the walked struct contributes, before deduplication. */
  function Contribution(f: Field): seq<Field>
    decreases Size(f.typ), 0
  {
    if !Exported(f.name) || f.typ.Signature? then []
    else if IsSquash(f.tag) then
      match Underlying(f.typ)
      case Struct(inner) => Expansion(inner)
      case _ => []
    else [f.(typ := Normalize(f.typ))]
  }

  /** The contributions of all fields, in declaration order. */
  function Expansion(fs: seq<Field>): seq<Field>
    decreases FieldsSize(fs), 1
  {
    if fs == [] then [] else Contribution(fs[0]) + Expansion(fs[1..])
  }

  /** The flattened struct: the expansion, keeping the first field of each name. */
  function FlatFields(fs: seq<Field>): seq<Field> {
    KeepFirst(Expansion(fs), ByName)
  }

  lemma {:induction false} ExpansionAppend(a: seq<Field>, b: seq<Field>)
    ensures Expansion(a + b) == Expansion(a) + Expansion(b)
    decreases |a|
  {
    if a == [] {
      assert a + b == b;
    } else {
      assert (a + b)[1..] == a[1..] + b;
      ExpansionAppend(a[1..], b);
    }
  }

  lemma ExpansionSingle(f: Field)
    ensures Expansion([f]) == Contribution(f)
  {
    assert [f][1..] == [];
    assert Expansion([f]) == Contribution(f) + Expansion([]);
  }

  /** Every field of the expansion is exported and not squashed. */
  lemma {:induction false} ExpansionFields(fs: seq<Field>)
    ensures forall g | g in Expansion(fs) :: Exported(g.name) && !IsSquash(g.tag)
    decreases FieldsSize(fs), 1
  {
    if fs != [] {
      ContributionFields(fs[0]);
      ExpansionFields(fs[1..]);
    }
  }

  lemma {:induction false} ContributionFields(f: Field)
    ensures forall g | g in Contribution(f) :: Exported(g.name) && !IsSquash(g.tag)
    decreases Size(f.typ), 0
  {
    if Exported(f.name) && !f.typ.Signature? && IsSquash(f.tag) && Underlying(f.typ).Struct? {
      ExpansionFields(Underlying(f.typ).fields);
    }
  }

  /**
   * The flattened struct has pairwise distinct field names, and never an
   * unexported or a squash-tagged field.
   */
  lemma FlatFieldsWellFormed(fs: seq<Field>)
    ensures Distinct(FlatFields(fs), ByName)
    ensures forall g | g in FlatFields(fs) :: Exported(g.name) && !IsSquash(g.tag)
  {
    KeepFirstDistinct(Expansion(fs), {}, ByName);
    KeepFirstSubsequence(Expansion(fs), {}, ByName);
    ExpansionFields(fs);
    SubsequenceMembers(FlatFields(fs), Expansion(fs));
  }

  lemma {:induction false} SubsequenceMembers(sub: seq<Field>, fs: seq<Field>)
    requires IsSubsequence(sub, fs)
    ensures forall g | g in sub :: g in fs
    decreases |fs|
  {
    if sub != [] && fs != [] {
      if sub[0] == fs[0] {
        SubsequenceMembers(sub[1..], fs[1..]);
        forall g | g in sub ensures g in fs {
          if g != sub[0] {
            assert g in sub[1..];
          }
        }
      } else {
        SubsequenceMembers(sub, fs[1..]);
      }
    }
  }

  /**
   * A squash field whose type is a struct is replaced, at its position, by
   * the fields of that struct.
   */
  lemma SquashInPlace(pre: seq<Field>, sq: Field, post: seq<Field>, inner: seq<Field>)
    requires Exported(sq.name) && IsSquash(sq.tag) && Underlying(sq.typ) == Struct(inner)
    ensures FlatFields(pre + [sq] + post) == FlatFields(pre + inner + post)
  {
    ExpansionAppend(pre + [sq], post);
    ExpansionAppend(pre, [sq]);
    ExpansionAppend(pre + inner, post);
    ExpansionAppend(pre, inner);
    ExpansionSingle(sq);
    assert Contribution(sq) == Expansion(inner);
  }

  /** A squash field whose type is not a struct vanishes. */
  lemma SquashNonStructDropped(pre: seq<Field>, sq: Field, post: seq<Field>)
    requires IsSquash(sq.tag) && !Underlying(sq.typ).Struct?
    ensures FlatFields(pre + [sq] + post) == FlatFields(pre + post)
  {
    ExpansionAppend(pre + [sq], post);
    ExpansionAppend(pre, [sq]);
    ExpansionAppend(pre, post);
    ExpansionSingle(sq);
    assert Contribution(sq) == [];
    assert Expansion(pre) + [] == Expansion(pre);
  }

  /** Unexported and func-typed fields vanish. */
  lemma DroppedField(pre: seq<Field>, f: Field, post: seq<Field>)
    requires !Exported(f.name) || f.typ.Signature?
    ensures FlatFields(pre + [f] + post) == FlatFields(pre + post)
  {
    ExpansionAppend(pre + [f], post);
    ExpansionAppend(pre, [f]);
    ExpansionAppend(pre, post);
    ExpansionSingle(f);
    assert Contribution(f) == [];
    assert Expansion(pre) + [] == Expansion(pre);
  }

  /** A field of a pointer-to-func type is kept, as a func-typed field. */
  /** A field of a named func type is not a bare func: it is kept, unchanged. */
  lemma NamedFuncKept(f: Field)
    requires Exported(f.name) && !IsSquash(f.tag)
    requires f.typ.Named? && Underlying(f.typ).Signature? && Override(QualifiedName(f.typ.pkg, f.typ.name)).None?
    ensures FlatFields([f]) == [f]
  {
    ExpansionSingle(f);
    KeepFirstSingle(f, ByName);
  }

  lemma PointerToFuncKept(f: Field)
    requires Exported(f.name) && !IsSquash(f.tag) && f.typ == Pointer(Signature)
    ensures FlatFields([f]) == [f.(typ := Signature)]
  {
    ExpansionSingle(f);
    KeepFirstSingle(f.(typ := Signature), ByName);
  }

  // ---------------------------------------------------------------------
  // The Go functions

  /** `structFields`: a struct's fields and, beside them, their tags. */
  method StructFields(s: seq<Field>) returns (vars: seq<Var>, tags: seq<Tag>)
    ensures |vars| == |tags| == |s|
    ensures forall i | 0 <= i < |s| :: vars[i] == Var(s[i].name, s[i].typ) && tags[i] == s[i].tag
  {
    vars, tags := [], [];
    for i := 0 to |s|
      invariant |vars| == |tags| == i
      invariant forall k | 0 <= k < i :: vars[k] == Var(s[k].name, s[k].typ) && tags[k] == s[k].tag
    {
      vars := vars + [Var(s[i].name, s[i].typ)];
      tags := tags + [s[i].tag];
    }
  }

  /** `types.NewStruct`: zips fields and tags back together. */
  function NewStruct(vars: seq<Var>, tags: seq<Tag>): (s: seq<Field>)
    requires |vars| == |tags|
    ensures |s| == |vars|
    ensures forall i | 0 <= i < |s| :: s[i].name == vars[i].name && s[i].typ == vars[i].typ && s[i].tag == tags[i]
  {
    if vars == [] then [] else [Field(vars[0].name, vars[0].typ, tags[0])] + NewStruct(vars[1..], tags[1..])
  }

  /** Splitting a struct and zipping it again gives the struct back. */
  lemma NewStructOfStructFields(s: seq<Field>, vars: seq<Var>, tags: seq<Tag>)
    requires |vars| == |tags| == |s|
    requires forall i | 0 <= i < |s| :: vars[i] == Var(s[i].name, s[i].typ) && tags[i] == s[i].tag
    ensures NewStruct(vars, tags) == s
  {
  }

  lemma {:induction false} NewStructAppend(v1: seq<Var>, t1: seq<Tag>, v2: seq<Var>, t2: seq<Tag>)
    requires |v1| == |t1| && |v2| == |t2|
    ensures NewStruct(v1 + v2, t1 + t2) == NewStruct(v1, t1) + NewStruct(v2, t2)
  {
    if v1 == [] {
      assert v1 + v2 == v2 && t1 + t2 == t2;
    } else {
      assert (v1 + v2)[1..] == v1[1..] + v2 && (t1 + t2)[1..] == t1[1..] + t2;
      NewStructAppend(v1[1..], t1[1..], v2, t2);
    }
  }

  /** `addFieldToStruct`: appends a field unless its name is taken. */
  method AddFieldToStruct(s: seq<Field>, field: Field) returns (r: seq<Field>)
    ensures r == KeepFirst(s + [field], ByName)
  {
    var sf, st := StructFields(s);
    NewStructOfStructFields(s, sf, st);
    var vars, tags := sf + [Var(field.name, field.typ)], st + [field.tag];
    assert NewStruct(vars, tags) == s + [field];
    r := UniqueFields(NewStruct(vars, tags));
  }

  /** `squashStructs`: appends the fields of `b` whose names `a` does not take. */
  method SquashStructs(a: seq<Field>, b: seq<Field>) returns (r: seq<Field>)
    ensures r == KeepFirst(a + b, ByName)
  {
    var va, ta := StructFields(a);
    var vb, tb := StructFields(b);
    NewStructOfStructFields(a, va, ta);
    NewStructOfStructFields(b, vb, tb);
    NewStructAppend(va, ta, vb, tb);
    r := UniqueFields(NewStruct(va + vb, ta + tb));
  }

  /** The normalisation of one kept field, rebinding it step by step. */
  method NormalizeField(field: Field) returns (r: Field)
    ensures r == field.(typ := Normalize(field.typ))
  {
    r := field;
    if r.typ.Pointer? {
      r := r.(typ := r.typ.elem);
    }
    var f := r.typ;
    match f
    case Named(pkg, name, _) =>
      var o := Override(QualifiedName(pkg, name));
      if o.Some? {
        r := r.(typ := o.value);
      }
      var u := Underlying(f);
      if u.Struct? {
        r := r.(typ := FlattenNamed(f));
        r := MakePointer(r);
      }
      if u.Slice? && IsNamedStruct(u.elem) {
        r := r.(typ := Slice(FlattenNamed(u.elem)));
      }
    case Slice(e) =>
      if IsNamedStruct(e) {
        r := r.(typ := Slice(FlattenNamed(e)));
      }
    case Basic(_) =>
      r := MakePointer(r);
    case _ =>
  }

  /** One more field of the walk extends the deduplicated expansion. */
  lemma ExtendWalk(fields: seq<Field>, i: nat, res: seq<Field>, part: seq<Field>)
    requires i < |fields| && res == KeepFirst(Expansion(fields[..i]), ByName)
    requires part == KeepFirst(Contribution(fields[i]), ByName)
    ensures KeepFirst(res + part, ByName) == KeepFirst(Expansion(fields[..i + 1]), ByName)
  {
    assert fields[..i + 1] == fields[..i] + [fields[i]];
    ExpansionAppend(fields[..i], [fields[i]]);
    ExpansionSingle(fields[i]);
    KeepFirstMerge(Expansion(fields[..i]), Contribution(fields[i]), ByName);
  }

  /**
   * `getMapstructureSquashedStruct`: the walk itself, with a
   * deduplication after every field or squashed struct it adds.
   */
  method SquashedStruct(fields: seq<Field>) returns (res: seq<Field>)
    ensures res == FlatFields(fields)
    decreases FieldsSize(fields)
  {
    res := [];
    for i := 0 to |fields|
      invariant res == KeepFirst(Expansion(fields[..i]), ByName)
    {
      var field := fields[i];
      if !Exported(field.name) || field.typ.Signature? {
        ExtendWalk(fields, i, res, []);
        assert res + [] == res;
        KeepFirstIdempotent(Expansion(fields[..i]), ByName);
        continue;
      }
      if field.tag.mapstructure.Some? && field.tag.mapstructure.value.squash {
        var uot := Underlying(field.typ);
        if !uot.Struct? {
          ExtendWalk(fields, i, res, []);
          assert res + [] == res;
          KeepFirstIdempotent(Expansion(fields[..i]), ByName);
          continue;
        }
        FieldsSizeBound(fields, i);
        var inner := SquashedStruct(uot.fields);
        ExtendWalk(fields, i, res, inner);
        res := SquashStructs(res, inner);
        continue;
      }
      field := NormalizeField(field);
      assert Contribution(fields[i]) == [field];
      KeepFirstSingle(field, ByName);
      ExtendWalk(fields, i, res, [field]);
      res := AddFieldToStruct(res, field);
    }
    assert fields[..|fields|] == fields;
  }
}
