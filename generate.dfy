/**
 * Root selection in `main`: the requested type names are sorted; each
 * definition of the package (a type, but also a struct field, a variable
 * or a parameter) whose type is a named struct declared in the package is
 * looked up among them by its own identifier, with a binary search; a
 * name that matches is removed so that it is matched only once; and the
 * matched structs are flattened, given accessors and finally sorted by
 * their original name.
 */
module Generate {
  import opened GoTypes
  import opened Order
  import Flatten
  import Accessors

  /** An entry of the package's definitions: an identifier and, unless its object is nil, its type. */
  datatype Def = Def(id: string, typ: Option<GoType>)

  /** `StructDef`: a requested struct and its flat copy. */
  datatype StructDef = StructDef(originalName: string, flatName: string, fields: seq<Field>)

  function OriginalName(s: StructDef): string {
    s.originalName
  }

  /**
   * A definition `main` considers: any object whose type is a named struct
   * declared in the top package, whatever kind of object it is.
   */
  predicate Eligible(topPkg: string, d: Def) {
    d.typ.Some? && d.typ.value.Named? && d.typ.value.pkg == topPkg && Underlying(d.typ.value).Struct?
  }

  /** The flat copy of an eligible definition. */
  function FlatDef(d: Def): StructDef
    requires d.typ.Some? && Underlying(d.typ.value).Struct?
  {
    StructDef(d.id, Flatten.FlatName(d.id), Accessors.FlatStruct(Underlying(d.typ.value).fields))
  }

  /**
   * The structs matched by the definitions in their order, and the names
   * still unmatched: a definition matches when it is eligible and its
   * identifier is still among the names, and then uses that name up.
   */
  function Selection(topPkg: string, defs: seq<Def>, names: seq<string>): (seq<StructDef>, seq<string>)
    decreases |defs|
  {
    if defs == [] then ([], names)
    else
      var (picked, rest) := Selection(topPkg, defs[..|defs| - 1], names);
      var d := defs[|defs| - 1];
      if Eligible(topPkg, d) && d.id in rest then (picked + [FlatDef(d)], RemoveFirst(rest, d.id))
      else (picked, rest)
  }

  /**
   * Any definition whose type is a named struct of the package is matched
   * under its own identifier, with the fields of that struct: a field
   * `Config OtherConfig` answers the request for `Config`.
   */
  lemma DefinitionMatchedByIdentifier(topPkg: string, id: string, typeName: string, fs: seq<Field>)
    ensures Selection(topPkg, [Def(id, Some(Named(topPkg, typeName, Struct(fs))))], [id]).0 ==
      [StructDef(id, "Flat" + id, Accessors.FlatStruct(fs))]
  {
    assert [Def(id, Some(Named(topPkg, typeName, Struct(fs))))][..0] == [];
  }

  /**
   * Of two eligible definitions with the same identifier, the one met
   * first uses the name up; so the order of the definitions decides which
   * struct's fields the flat copy gets.
   */
  lemma FirstDefinitionWins(topPkg: string, a: Def, b: Def)
    requires Eligible(topPkg, a) && Eligible(topPkg, b) && a.id == b.id
    ensures Selection(topPkg, [a, b], [a.id]) == ([FlatDef(a)], [])
    ensures Selection(topPkg, [b, a], [a.id]) == ([FlatDef(b)], [])
  {
    var names := [a.id];
    assert Selection(topPkg, [], names) == ([], names);
    assert a.id in names && RemoveFirst(names, a.id) == [];
    assert [a][..0] == [] && [b][..0] == [];
    var none: seq<StructDef> := [];
    assert none + [FlatDef(a)] == [FlatDef(a)] && none + [FlatDef(b)] == [FlatDef(b)];
    assert Selection(topPkg, [a], names) == ([FlatDef(a)], []);
    assert Selection(topPkg, [b], names) == ([FlatDef(b)], []);
    assert [a, b][..1] == [a] && [b, a][..1] == [b];
  }

  /** Every requested name is either matched or left over, and none is matched more often than requested. */
  lemma {:induction false} SelectionAccounting(topPkg: string, defs: seq<Def>, names: seq<string>)
    ensures multiset(KeysOf(Selection(topPkg, defs, names).0, OriginalName)) + multiset(Selection(topPkg, defs, names).1)
            == multiset(names)
    decreases |defs|
  {
    if defs != [] {
      var init := defs[..|defs| - 1];
      SelectionAccounting(topPkg, init, names);
      var (picked, rest) := Selection(topPkg, init, names);
      var d := defs[|defs| - 1];
      if Eligible(topPkg, d) && d.id in rest {
        RemoveFirstCount(rest, d.id);
        KeysOfAppend(picked, [FlatDef(d)], OriginalName);
      }
    }
  }

  /** Every matched struct is the flat copy of an eligible definition, named "Flat" + its name. */
  lemma {:induction false} SelectionSound(topPkg: string, defs: seq<Def>, names: seq<string>)
    ensures forall p | p in Selection(topPkg, defs, names).0 ::
      p.flatName == "Flat" + p.originalName &&
      exists d | d in defs :: Eligible(topPkg, d) && d.id == p.originalName && p == FlatDef(d)
    decreases |defs|
  {
    if defs != [] {
      var init := defs[..|defs| - 1];
      SelectionSound(topPkg, init, names);
      var last := defs[|defs| - 1];
      assert last in defs;
      assert forall d | d in init :: d in defs;
    }
  }

  /** A requested name that an eligible definition carries is matched. */
  lemma {:induction false} SelectionComplete(topPkg: string, defs: seq<Def>, names: seq<string>, k: nat)
    requires k < |defs| && Eligible(topPkg, defs[k]) && defs[k].id in names
    ensures defs[k].id in KeysOf(Selection(topPkg, defs, names).0, OriginalName)
    decreases |defs|
  {
    var n := defs[k].id;
    var init := defs[..|defs| - 1];
    var d := defs[|defs| - 1];
    var (picked, rest) := Selection(topPkg, init, names);
    if Eligible(topPkg, d) && d.id in rest {
      KeysOfAppend(picked, [FlatDef(d)], OriginalName);
    }
    if k < |defs| - 1 {
      assert init[k] == defs[k];
      SelectionComplete(topPkg, init, names, k);
    } else {
      SelectionAccounting(topPkg, init, names);
      assert n in multiset(names);
      if n !in rest {
        assert n in multiset(KeysOf(picked, OriginalName));
      }
    }
  }

  /**
   * The selection loop of `main`, then the sort of the result by
   * original name.  `unmatched` is what is left of the requested names.
   */
  method Generate(topPkg: string, typeNames: seq<string>, defs: seq<Def>)
    returns (structs: seq<StructDef>, unmatched: seq<string>)
    ensures structs == SortBy(Selection(topPkg, defs, SortBy(typeNames, Id)).0, OriginalName)
    ensures unmatched == Selection(topPkg, defs, SortBy(typeNames, Id)).1
    ensures SortedBy(structs, OriginalName) && Sorted(unmatched)
    ensures multiset(KeysOf(structs, OriginalName)) + multiset(unmatched) == multiset(typeNames)
    ensures forall s | s in structs ::
      s.flatName == "Flat" + s.originalName &&
      exists d | d in defs :: Eligible(topPkg, d) && d.id == s.originalName && s == FlatDef(d)
    ensures forall d | d in defs && Eligible(topPkg, d) && d.id in typeNames :: d.id in KeysOf(structs, OriginalName)
  {
    var names := SortBy(typeNames, Id);
    SortBySorts(typeNames, Id);
    var picked: seq<StructDef> := [];
    for i := 0 to |defs|
      invariant (picked, names) == Selection(topPkg, defs[..i], SortBy(typeNames, Id))
      invariant Sorted(names)
    {
      assert defs[..i + 1][..i] == defs[..i];
      var d := defs[i];
      if d.typ.None? {
        continue;
      }
      var t := d.typ.value;
      if !t.Named? {
        continue;
      }
      if t.pkg != topPkg {
        continue;
      }
      var ut := Underlying(t);
      if !ut.Struct? {
        continue;
      }
      var pos := SearchStrings(names, d.id);
      SearchFinds(names, d.id, pos);
      if pos >= |names| || names[pos] != d.id {
        continue;
      }
      CutIsRemoveFirst(names, d.id, pos);
      CutSorted(names, pos);
      names := names[..pos] + names[pos + 1..];
      var flattened := Flatten.SquashedStruct(ut.fields);
      flattened := Accessors.AddCtyTagToStruct(flattened);
      picked := picked + [StructDef(d.id, "Flat" + d.id, flattened)];
    }
    assert defs[..|defs|] == defs;
    structs := SortBy(picked, OriginalName);
    unmatched := names;
    SortBySorts(picked, OriginalName);
    SortedAccounting(topPkg, typeNames, defs);
    SortedSound(topPkg, SortBy(typeNames, Id), defs);
    SortedComplete(topPkg, typeNames, defs);
  }

  /** Sorting the matched structs keeps the accounting of names. */
  lemma SortedAccounting(topPkg: string, typeNames: seq<string>, defs: seq<Def>)
    ensures var sel := Selection(topPkg, defs, SortBy(typeNames, Id));
      multiset(KeysOf(SortBy(sel.0, OriginalName), OriginalName)) + multiset(sel.1) == multiset(typeNames)
  {
    var sel := Selection(topPkg, defs, SortBy(typeNames, Id));
    SortBySorts(typeNames, Id);
    SortBySorts(sel.0, OriginalName);
    SelectionAccounting(topPkg, defs, SortBy(typeNames, Id));
    KeysOfIds(typeNames);
    KeysOfIds(SortBy(typeNames, Id));
  }

  /** Every struct of the sorted result is the flat copy of an eligible definition. */
  lemma SortedSound(topPkg: string, names: seq<string>, defs: seq<Def>)
    ensures forall s | s in SortBy(Selection(topPkg, defs, names).0, OriginalName) ::
      s.flatName == "Flat" + s.originalName &&
      exists d | d in defs :: Eligible(topPkg, d) && d.id == s.originalName && s == FlatDef(d)
  {
    var picked := Selection(topPkg, defs, names).0;
    SortBySorts(picked, OriginalName);
    SelectionSound(topPkg, defs, names);
    forall s | s in SortBy(picked, OriginalName) ensures s in picked {
      assert s in multiset(picked);
    }
  }

  /** Every requested name that an eligible definition carries appears in the sorted result. */
  lemma SortedComplete(topPkg: string, typeNames: seq<string>, defs: seq<Def>)
    ensures forall d | d in defs && Eligible(topPkg, d) && d.id in typeNames ::
      d.id in KeysOf(SortBy(Selection(topPkg, defs, SortBy(typeNames, Id)).0, OriginalName), OriginalName)
  {
    var names := SortBy(typeNames, Id);
    var picked := Selection(topPkg, defs, names).0;
    SortBySorts(typeNames, Id);
    SortBySorts(picked, OriginalName);
    KeysOfIds(typeNames);
    KeysOfIds(names);
    forall d | d in defs && Eligible(topPkg, d) && d.id in typeNames
      ensures d.id in KeysOf(SortBy(picked, OriginalName), OriginalName)
    {
      assert d.id in multiset(typeNames);
      assert d.id in multiset(names);
      var k :| 0 <= k < |defs| && defs[k] == d;
      SelectionComplete(topPkg, defs, names, k);
      assert d.id in multiset(KeysOf(picked, OriginalName));
    }
  }
}
