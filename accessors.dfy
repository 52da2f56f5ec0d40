/**
 * Accessor synthesis: `addCtyTagToStruct` gives every field of the flat
 * struct a `cty` tag naming the HCL attribute it is read from, then
 * `uniqueTags` keeps the first field claiming each name.
 */
module Accessors {
  import opened GoTypes
  import opened Unique
  import opened SnakeCase
  import Flatten

  /** The `mapstructure` name, when the tag has one that is not empty. */
  predicate HasMsName(t: Tag) {
    t.mapstructure.Some? && t.mapstructure.value.name != ""
  }

  /** The attribute name of a field: its `mapstructure` name, else its snake-cased Go name. */
  function Accessor(f: Field): string {
    if HasMsName(f.tag) then f.tag.mapstructure.value.name else ToSnakeCase(f.name)
  }

  /** The field with its `cty` tag set to its accessor (any earlier `cty` tag replaced). */
  function WithCty(f: Field): Field {
    f.(tag := f.tag.(cty := Some(Accessor(f))))
  }

  function WithAccessors(fs: seq<Field>): (r: seq<Field>)
    ensures |r| == |fs|
    ensures forall i | 0 <= i < |fs| :: r[i] == WithCty(fs[i])
  {
    if fs == [] then [] else [WithCty(fs[0])] + WithAccessors(fs[1..])
  }

  /** The accessors of `fs`. */
  function AccessorSet(fs: seq<Field>): set<string> {
    set f | f in fs :: Accessor(f)
  }

  lemma {:induction false} WithAccessorsKeys(fs: seq<Field>)
    ensures Keys(WithAccessors(fs), ByCty) == AccessorSet(fs)
  {
    if fs != [] {
      WithAccessorsKeys(fs[1..]);
      assert WithAccessors(fs)[1..] == WithAccessors(fs[1..]);
      assert AccessorSet(fs) == {Accessor(fs[0])} + AccessorSet(fs[1..]) by {
        forall a | a in AccessorSet(fs) ensures a in {Accessor(fs[0])} + AccessorSet(fs[1..]) {
          var f :| f in fs && Accessor(f) == a;
          if f != fs[0] {
            assert f in fs[1..];
          }
        }
      }
    }
  }

  /** What deduplicating by accessor keeps of a struct whose fields all carry one. */
  lemma KeepFirstAccessors(s: seq<Field>)
    ensures Distinct(KeepFirst(WithAccessors(s), ByCty), ByCty)
    ensures Keys(KeepFirst(WithAccessors(s), ByCty), ByCty) == AccessorSet(s)
    ensures forall j | 0 <= j < |KeepFirst(WithAccessors(s), ByCty)| ::
      var f := KeepFirst(WithAccessors(s), ByCty)[j];
      f.tag.cty.Some? && f.tag.cty.value in Keys(WithAccessors(s), ByCty) &&
      f == FirstWith(WithAccessors(s), ByCty, f.tag.cty.value)
    ensures IsSubsequence(KeepFirst(WithAccessors(s), ByCty), WithAccessors(s))
  {
    var w := WithAccessors(s);
    WithAccessorsKeys(s);
    KeepFirstDistinct(w, {}, ByCty);
    KeepFirstKeys(w, {}, ByCty);
    KeepFirstFirst(w, {}, ByCty);
    KeepFirstSubsequence(w, {}, ByCty);
    KeepFirstKeyless(w, {}, ByCty);
    WithCtyKeyless(s);
    KeylessNone(KeepFirst(w, ByCty), ByCty);
  }

  lemma RetaggedStruct(s: seq<Field>, vars: seq<Var>, tags: seq<Tag>)
    requires |vars| == |tags| == |s|
    requires forall i | 0 <= i < |s| :: vars[i] == Var(s[i].name, s[i].typ) && tags[i] == s[i].tag.(cty := Some(Accessor(s[i])))
    ensures Flatten.NewStruct(vars, tags) == WithAccessors(s)
  {
  }

  /**
   * `addCtyTagToStruct`: overwrites every field's tag with one carrying
   * its accessor under `cty`, then drops every field whose accessor an
   * earlier field already claimed.
   */
  method AddCtyTagToStruct(s: seq<Field>) returns (r: seq<Field>)
    ensures r == KeepFirst(WithAccessors(s), ByCty)
    ensures Distinct(r, ByCty)
    ensures Keys(r, ByCty) == AccessorSet(s)
    ensures forall j | 0 <= j < |r| ::
      r[j].tag.cty.Some? && r[j].tag.cty.value in Keys(WithAccessors(s), ByCty) &&
      r[j] == FirstWith(WithAccessors(s), ByCty, r[j].tag.cty.value)
    ensures IsSubsequence(r, WithAccessors(s))
  {
    var vars, tags := Flatten.StructFields(s);
    for i := 0 to |tags|
      invariant |tags| == |s|
      invariant forall k | 0 <= k < i :: tags[k] == s[k].tag.(cty := Some(Accessor(s[k])))
      invariant forall k | i <= k < |s| :: tags[k] == s[k].tag
    {
      var field, tag := vars[i], tags[i];
      var ctyAccessor := ToSnakeCase(field.name);
      if tag.mapstructure.Some? && tag.mapstructure.value.name != "" {
        ctyAccessor := tag.mapstructure.value.name;
      }
      tags := tags[i := tag.(cty := Some(ctyAccessor))];
    }
    RetaggedStruct(s, vars, tags);
    r := UniqueTags(Flatten.NewStruct(vars, tags));
    KeepFirstAccessors(s);
  }

  /** The whole struct transformation: flattening, then accessors. */
  function FlatStruct(fs: seq<Field>): seq<Field> {
    KeepFirst(WithAccessors(Flatten.FlatFields(fs)), ByCty)
  }

  /**
   * The flat struct keeps distinct Go names and distinct accessors, and
   * every field of it carries a `cty` tag.
   */
  lemma FlatStructWellFormed(fs: seq<Field>)
    ensures Distinct(FlatStruct(fs), ByName) && Distinct(FlatStruct(fs), ByCty)
    ensures forall j | 0 <= j < |FlatStruct(fs)| :: FlatStruct(fs)[j].tag.cty.Some?
    ensures forall g | g in FlatStruct(fs) :: Exported(g.name) && !IsSquash(g.tag)
  {
    FlatStructDistinct(fs);
    FlatStructTagged(fs);
  }

  lemma FlatStructDistinct(fs: seq<Field>)
    ensures Distinct(FlatStruct(fs), ByName) && Distinct(FlatStruct(fs), ByCty)
  {
    var flat := Flatten.FlatFields(fs);
    var named := WithAccessors(flat);
    Flatten.FlatFieldsWellFormed(fs);
    KeepFirstDistinct(named, {}, ByCty);
    KeepFirstSubsequence(named, {}, ByCty);
    assert Distinct(named, ByName) by {
      forall i, j | 0 <= i < j < |named| ensures KeyOf(named[i], ByName) != KeyOf(named[j], ByName) {
        assert KeyOf(flat[i], ByName) != KeyOf(flat[j], ByName);
      }
    }
    SubsequenceDistinct(FlatStruct(fs), named, ByName);
  }

  lemma FlatStructTagged(fs: seq<Field>)
    ensures forall j | 0 <= j < |FlatStruct(fs)| :: FlatStruct(fs)[j].tag.cty.Some?
    ensures forall g | g in FlatStruct(fs) :: Exported(g.name) && !IsSquash(g.tag)
  {
    var flat := Flatten.FlatFields(fs);
    var named := WithAccessors(flat);
    Flatten.FlatFieldsWellFormed(fs);
    KeepFirstSubsequence(named, {}, ByCty);
    KeepFirstKeyless(named, {}, ByCty);
    KeepFirstKeys(named, {}, ByCty);
    WithCtyKeyless(flat);
    KeylessNone(FlatStruct(fs), ByCty);
    Flatten.SubsequenceMembers(FlatStruct(fs), named);
    forall g | g in FlatStruct(fs) ensures Exported(g.name) && !IsSquash(g.tag) {
      var k :| 0 <= k < |named| && named[k] == g;
      assert flat[k] in flat;
    }
  }

  lemma {:induction false} WithCtyKeyless(fs: seq<Field>)
    ensures Keyless(WithAccessors(fs), ByCty) == []
  {
    if fs != [] {
      assert WithAccessors(fs)[1..] == WithAccessors(fs[1..]);
      WithCtyKeyless(fs[1..]);
    }
  }

  /**
   * A field with a non-empty `mapstructure` name is read under that name;
   * one without is read under its snake-cased Go name ("GalaxyCommand" is
   * read as "galaxy_command").
   */
  lemma AccessorChoice(f: Field)
    ensures HasMsName(f.tag) ==> Accessor(f) == f.tag.mapstructure.value.name
    ensures !HasMsName(f.tag) && Word(f.name) ==> Accessor(f) == ToLower(f.name)
    ensures !HasMsName(f.tag) ==> NoUpper(Accessor(f))
  {
    if !HasMsName(f.tag) && Word(f.name) {
      SnakeCaseWord(f.name);
    }
  }

  /**
   * Of two fields claiming the same accessor, only the first is kept: a
   * field `Cmd` tagged `mapstructure:"command"` hides a later `Command`.
   */
  lemma FirstClaimantWins(a: Field, b: Field)
    requires Accessor(a) == Accessor(b)
    ensures KeepFirst(WithAccessors([a, b]), ByCty) == [WithCty(a)]
  {
    var w := WithAccessors([a, b]);
    var k := Accessor(a);
    assert w == [WithCty(a), WithCty(b)];
    assert w[1..] == [WithCty(b)] && w[1..][1..] == [];
    assert KeepFirstFrom(w[1..], {k}, ByCty) == KeepFirstFrom(w[1..][1..], {k}, ByCty);
    assert KeepFirstFrom(w, {}, ByCty) == [w[0]] + KeepFirstFrom(w[1..], {} + {k}, ByCty);
  }
}
