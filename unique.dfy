/**
 * Keep-first deduplication of struct fields, as done by `uniqueFields`
 * (by field name) and `uniqueTags` (by the name under one tag key).
 * A field without a key (no tag under the key) is always kept.
 */
module Unique {
  import opened GoTypes

  /** What two fields are compared by. */
  datatype Key = ByName | ByCty

  function KeyOf(f: Field, key: Key): Option<string> {
    match key
    case ByName => Some(f.name)
    case ByCty => f.tag.cty
  }

  function KeySet(f: Field, key: Key): set<string> {
    if KeyOf(f, key).Some? then {KeyOf(f, key).value} else {}
  }

  /** The keys that occur in `fs`. */
  function Keys(fs: seq<Field>, key: Key): set<string> {
    if fs == [] then {} else KeySet(fs[0], key) + Keys(fs[1..], key)
  }

  /** The fields of `fs` that carry no key. */
  function Keyless(fs: seq<Field>, key: Key): seq<Field> {
    if fs == [] then []
    else (if KeyOf(fs[0], key).None? then [fs[0]] else []) + Keyless(fs[1..], key)
  }

  /** No key occurs twice in `fs`. */
  ghost predicate Distinct(fs: seq<Field>, key: Key) {
    forall i, j | 0 <= i < j < |fs| && KeyOf(fs[i], key).Some? :: KeyOf(fs[i], key) != KeyOf(fs[j], key)
  }

  /** `sub` is `fs` with some elements left out, the rest in their order. */
  ghost predicate IsSubsequence(sub: seq<Field>, fs: seq<Field>)
    decreases |fs|
  {
    if sub == [] then true
    else if fs == [] then false
    else if sub[0] == fs[0] then IsSubsequence(sub[1..], fs[1..])
    else IsSubsequence(sub, fs[1..])
  }

  /** The first field of `fs` whose key is `k`. */
  function FirstWith(fs: seq<Field>, key: Key, k: string): (f: Field)
    requires k in Keys(fs, key)
    ensures KeyOf(f, key) == Some(k)
  {
    if KeyOf(fs[0], key) == Some(k) then fs[0] else FirstWith(fs[1..], key, k)
  }

  /**
   * The fields of `fs` whose key is not in `seen` and not taken by an
   * earlier field of `fs`: a scan that remembers each key it keeps.
   */
  function KeepFirstFrom(fs: seq<Field>, seen: set<string>, key: Key): seq<Field> {
    if fs == [] then []
    else
      var k := KeyOf(fs[0], key);
      if k.Some? && k.value in seen then KeepFirstFrom(fs[1..], seen, key)
      else [fs[0]] + KeepFirstFrom(fs[1..], seen + KeySet(fs[0], key), key)
  }

  function KeepFirst(fs: seq<Field>, key: Key): seq<Field> {
    KeepFirstFrom(fs, {}, key)
  }

  // ---------------------------------------------------------------------
  // Properties of the specification

  lemma {:induction false} KeysIndex(fs: seq<Field>, key: Key)
    ensures forall i | 0 <= i < |fs| && KeyOf(fs[i], key).Some? :: KeyOf(fs[i], key).value in Keys(fs, key)
    ensures forall k | k in Keys(fs, key) :: exists i :: 0 <= i < |fs| && KeyOf(fs[i], key) == Some(k)
  {
    if fs != [] {
      KeysIndex(fs[1..], key);
      forall k | k in Keys(fs, key) ensures exists i :: 0 <= i < |fs| && KeyOf(fs[i], key) == Some(k) {
        if k !in KeySet(fs[0], key) {
          assert k in Keys(fs[1..], key);
          var i :| 0 <= i < |fs[1..]| && KeyOf(fs[1..][i], key) == Some(k);
          assert KeyOf(fs[i + 1], key) == Some(k);
        }
      }
    }
  }

  lemma {:induction false} KeysAppend(a: seq<Field>, b: seq<Field>, key: Key)
    ensures Keys(a + b, key) == Keys(a, key) + Keys(b, key)
  {
    if a != [] {
      assert (a + b)[1..] == a[1..] + b;
      KeysAppend(a[1..], b, key);
    } else {
      assert a + b == b;
    }
  }

  /** Exactly the keys of `fs` that are not already seen survive. */
  lemma {:induction false} KeepFirstKeys(fs: seq<Field>, seen: set<string>, key: Key)
    ensures Keys(KeepFirstFrom(fs, seen, key), key) == Keys(fs, key) - seen
  {
    if fs != [] {
      var k := KeyOf(fs[0], key);
      if k.Some? && k.value in seen {
        KeepFirstKeys(fs[1..], seen, key);
      } else {
        var rest := KeepFirstFrom(fs[1..], seen + KeySet(fs[0], key), key);
        KeepFirstKeys(fs[1..], seen + KeySet(fs[0], key), key);
        assert ([fs[0]] + rest)[1..] == rest;
      }
    }
  }

  /** The survivors carry pairwise distinct keys, none of them already seen. */
  lemma {:induction false} KeepFirstDistinct(fs: seq<Field>, seen: set<string>, key: Key)
    ensures Distinct(KeepFirstFrom(fs, seen, key), key)
    ensures Keys(KeepFirstFrom(fs, seen, key), key) !! seen
  {
    KeepFirstKeys(fs, seen, key);
    if fs != [] {
      var k := KeyOf(fs[0], key);
      if k.Some? && k.value in seen {
        KeepFirstDistinct(fs[1..], seen, key);
      } else {
        var seen' := seen + KeySet(fs[0], key);
        var rest := KeepFirstFrom(fs[1..], seen', key);
        KeepFirstDistinct(fs[1..], seen', key);
        KeysIndex(rest, key);
        var r := [fs[0]] + rest;
        forall i, j | 0 <= i < j < |r| && KeyOf(r[i], key).Some?
          ensures KeyOf(r[i], key) != KeyOf(r[j], key)
        {
          if i > 0 {
            assert r[i] == rest[i - 1] && r[j] == rest[j - 1];
          } else {
            assert r[j] == rest[j - 1];
          }
        }
      }
    }
  }

  /** Fields that carry no key are never dropped. */
  lemma {:induction false} KeepFirstKeyless(fs: seq<Field>, seen: set<string>, key: Key)
    ensures Keyless(KeepFirstFrom(fs, seen, key), key) == Keyless(fs, key)
  {
    if fs != [] {
      var k := KeyOf(fs[0], key);
      if k.Some? && k.value in seen {
        KeepFirstKeyless(fs[1..], seen, key);
      } else {
        var rest := KeepFirstFrom(fs[1..], seen + KeySet(fs[0], key), key);
        KeepFirstKeyless(fs[1..], seen + KeySet(fs[0], key), key);
        assert ([fs[0]] + rest)[1..] == rest;
      }
    }
  }

  /** The survivors are the input with fields left out, order preserved. */
  lemma {:induction false} KeepFirstSubsequence(fs: seq<Field>, seen: set<string>, key: Key)
    ensures IsSubsequence(KeepFirstFrom(fs, seen, key), fs)
    decreases |fs|
  {
    if fs != [] {
      var k := KeyOf(fs[0], key);
      if k.Some? && k.value in seen {
        KeepFirstSubsequence(fs[1..], seen, key);
        SubsequenceSkip(KeepFirstFrom(fs[1..], seen, key), fs);
      } else {
        var rest := KeepFirstFrom(fs[1..], seen + KeySet(fs[0], key), key);
        KeepFirstSubsequence(fs[1..], seen + KeySet(fs[0], key), key);
        assert ([fs[0]] + rest)[1..] == rest;
      }
    }
  }

  lemma {:induction false} SubsequenceSkip(sub: seq<Field>, fs: seq<Field>)
    requires fs != [] && IsSubsequence(sub, fs[1..])
    ensures IsSubsequence(sub, fs)
    decreases |fs| + |sub|
  {
    if sub != [] && sub[0] == fs[0] {
      // keeping fs[0] instead of the later equal element also works
      SubsequenceTail(sub, fs[1..]);
    }
  }

  lemma {:induction false} SubsequenceTail(sub: seq<Field>, fs: seq<Field>)
    requires sub != [] && IsSubsequence(sub, fs)
    ensures IsSubsequence(sub[1..], fs)
    decreases |fs| + |sub|
  {
    if sub[0] != fs[0] {
      SubsequenceTail(sub, fs[1..]);
      SubsequenceSkip(sub[1..], fs);
    } else {
      SubsequenceSkip(sub[1..], fs);
    }
  }

  /** Leaving out fields cannot create a duplicate key. */
  lemma {:induction false} SubsequenceDistinct(sub: seq<Field>, fs: seq<Field>, key: Key)
    requires IsSubsequence(sub, fs) && Distinct(fs, key)
    ensures Distinct(sub, key)
    decreases |fs|
  {
    if sub != [] {
      assert Distinct(fs[1..], key) by {
        forall i, j | 0 <= i < j < |fs[1..]| && KeyOf(fs[1..][i], key).Some?
          ensures KeyOf(fs[1..][i], key) != KeyOf(fs[1..][j], key)
        {
          assert fs[1..][i] == fs[i + 1] && fs[1..][j] == fs[j + 1];
        }
      }
      if sub[0] == fs[0] {
        SubsequenceDistinct(sub[1..], fs[1..], key);
        SubsequenceKeys(sub[1..], fs[1..], key);
        KeysIndex(fs[1..], key);
        KeysIndex(sub[1..], key);
        forall i, j | 0 <= i < j < |sub| && KeyOf(sub[i], key).Some?
          ensures KeyOf(sub[i], key) != KeyOf(sub[j], key)
        {
          if i > 0 {
            assert sub[i] == sub[1..][i - 1] && sub[j] == sub[1..][j - 1];
          } else {
            assert sub[j] == sub[1..][j - 1];
            if KeyOf(sub[j], key) == KeyOf(fs[0], key) {
              assert false;
            }
          }
        }
      } else {
        SubsequenceDistinct(sub, fs[1..], key);
      }
    }
  }

  lemma {:induction false} SubsequenceKeys(sub: seq<Field>, fs: seq<Field>, key: Key)
    requires IsSubsequence(sub, fs)
    ensures Keys(sub, key) <= Keys(fs, key)
    decreases |fs|
  {
    if sub != [] {
      if sub[0] == fs[0] {
        SubsequenceKeys(sub[1..], fs[1..], key);
      } else {
        SubsequenceKeys(sub, fs[1..], key);
      }
    }
  }

  /** Each surviving field is the first field of the input with its key. */
  lemma {:induction false} KeepFirstFirst(fs: seq<Field>, seen: set<string>, key: Key)
    ensures forall j | 0 <= j < |KeepFirstFrom(fs, seen, key)| && KeyOf(KeepFirstFrom(fs, seen, key)[j], key).Some? ::
      KeyOf(KeepFirstFrom(fs, seen, key)[j], key).value in Keys(fs, key) &&
      KeepFirstFrom(fs, seen, key)[j] == FirstWith(fs, key, KeyOf(KeepFirstFrom(fs, seen, key)[j], key).value)
  {
    if fs != [] {
      var k := KeyOf(fs[0], key);
      var out := KeepFirstFrom(fs, seen, key);
      if k.Some? && k.value in seen {
        KeepFirstFirst(fs[1..], seen, key);
        KeepFirstKeys(fs[1..], seen, key);
        KeysIndex(out, key);
      } else {
        var seen' := seen + KeySet(fs[0], key);
        var rest := KeepFirstFrom(fs[1..], seen', key);
        KeepFirstFirst(fs[1..], seen', key);
        KeepFirstKeys(fs[1..], seen', key);
        KeysIndex(rest, key);
        forall j | 0 <= j < |out| && KeyOf(out[j], key).Some?
          ensures KeyOf(out[j], key).value in Keys(fs, key) && out[j] == FirstWith(fs, key, KeyOf(out[j], key).value)
        {
          if j > 0 {
            assert out[j] == rest[j - 1];
          }
        }
      }
    }
  }

  /** Deduplicating a concatenation: the second part also skips the first part's keys. */
  lemma {:induction false} KeepFirstAppend(a: seq<Field>, b: seq<Field>, seen: set<string>, key: Key)
    ensures KeepFirstFrom(a + b, seen, key) == KeepFirstFrom(a, seen, key) + KeepFirstFrom(b, seen + Keys(a, key), key)
  {
    if a == [] {
      assert a + b == b;
      assert seen + Keys(a, key) == seen;
    } else {
      assert (a + b)[0] == a[0];
      assert (a + b)[1..] == a[1..] + b;
      var k := KeyOf(a[0], key);
      if k.Some? && k.value in seen {
        KeepFirstAppend(a[1..], b, seen, key);
        assert seen + Keys(a[1..], key) == seen + Keys(a, key);
      } else {
        KeepFirstAppend(a[1..], b, seen + KeySet(a[0], key), key);
        assert seen + KeySet(a[0], key) + Keys(a[1..], key) == seen + Keys(a, key);
      }
    }
  }

  /** A second pass with at least as many keys seen removes nothing more than a single pass. */
  lemma {:induction false} KeepFirstAbsorb(fs: seq<Field>, inner: set<string>, outer: set<string>, key: Key)
    requires inner <= outer
    ensures KeepFirstFrom(KeepFirstFrom(fs, inner, key), outer, key) == KeepFirstFrom(fs, outer, key)
  {
    if fs != [] {
      var k := KeyOf(fs[0], key);
      if k.Some? && k.value in inner {
        KeepFirstAbsorb(fs[1..], inner, outer, key);
      } else {
        var inner' := inner + KeySet(fs[0], key);
        var rest := KeepFirstFrom(fs[1..], inner', key);
        assert ([fs[0]] + rest)[0] == fs[0];
        assert ([fs[0]] + rest)[1..] == rest;
        if k.Some? && k.value in outer {
          KeepFirstAbsorb(fs[1..], inner', outer, key);
        } else {
          KeepFirstAbsorb(fs[1..], inner', outer + KeySet(fs[0], key), key);
        }
      }
    }
  }

  lemma KeepFirstSingle(f: Field, key: Key)
    ensures KeepFirst([f], key) == [f]
  {
    assert [f][1..] == [];
    assert KeepFirstFrom([f], {}, key) == [f] + KeepFirstFrom([], {} + KeySet(f, key), key);
  }

  /** A sequence with no keyless field has a key at every position. */
  lemma {:induction false} KeylessNone(fs: seq<Field>, key: Key)
    requires Keyless(fs, key) == []
    ensures forall j | 0 <= j < |fs| :: KeyOf(fs[j], key).Some?
  {
    if fs != [] {
      KeylessNone(fs[1..], key);
      assert forall j | 1 <= j < |fs| :: fs[j] == fs[1..][j - 1];
    }
  }

  /** Deduplicating twice is deduplicating once. */
  lemma KeepFirstIdempotent(fs: seq<Field>, key: Key)
    ensures KeepFirst(KeepFirst(fs, key), key) == KeepFirst(fs, key)
  {
    KeepFirstAbsorb(fs, {}, {}, key);
  }

  /**
   * Deduplicating two deduplicated parts together is deduplicating their
   * concatenation: the dedup after every step of the flattening equals
   * one pass at the end.
   */
  lemma KeepFirstMerge(a: seq<Field>, b: seq<Field>, key: Key)
    ensures KeepFirst(KeepFirst(a, key) + KeepFirst(b, key), key) == KeepFirst(a + b, key)
  {
    var ka, kb := KeepFirst(a, key), KeepFirst(b, key);
    KeepFirstAppend(ka, kb, {}, key);
    KeepFirstAbsorb(a, {}, {}, key);
    KeepFirstKeys(a, {}, key);
    assert {} + Keys(ka, key) == Keys(a, key);
    KeepFirstAbsorb(b, {}, Keys(a, key), key);
    KeepFirstAppend(a, b, {}, key);
    assert {} + Keys(a, key) == Keys(a, key);
  }

  /** A sequence without duplicate keys is left as it is. */
  lemma {:induction false} KeepFirstOfDistinct(fs: seq<Field>, seen: set<string>, key: Key)
    requires Distinct(fs, key) && Keys(fs, key) !! seen
    ensures KeepFirstFrom(fs, seen, key) == fs
  {
    if fs != [] {
      KeysIndex(fs, key);
      KeysIndex(fs[1..], key);
      var seen' := seen + KeySet(fs[0], key);
      assert Distinct(fs[1..], key) by {
        forall i, j | 0 <= i < j < |fs[1..]| && KeyOf(fs[1..][i], key).Some?
          ensures KeyOf(fs[1..][i], key) != KeyOf(fs[1..][j], key)
        {
          assert fs[1..][i] == fs[i + 1] && fs[1..][j] == fs[j + 1];
        }
      }
      assert Keys(fs[1..], key) !! seen' by {
        forall k | k in Keys(fs[1..], key) ensures k !in seen' {
          var m :| 0 <= m < |fs[1..]| && KeyOf(fs[1..][m], key) == Some(k);
          assert fs[1..][m] == fs[m + 1];
        }
      }
      KeepFirstOfDistinct(fs[1..], seen', key);
    }
  }

  /** One step of the scan, at position `i`. */
  lemma KeepFirstStep(fs: seq<Field>, i: nat, seen: set<string>, key: Key)
    requires i < |fs|
    ensures KeepFirstFrom(fs[i..], seen, key) ==
      if KeyOf(fs[i], key).Some? && KeyOf(fs[i], key).value in seen then KeepFirstFrom(fs[i + 1..], seen, key)
      else [fs[i]] + KeepFirstFrom(fs[i + 1..], seen + KeySet(fs[i], key), key)
  {
    assert fs[i..][1..] == fs[i + 1..];
  }

  // ---------------------------------------------------------------------
  // The Go loops

  /** What deduplication guarantees, gathered for the loops below. */
  lemma KeepFirstFacts(fields: seq<Field>, key: Key)
    ensures Distinct(KeepFirst(fields, key), key)
    ensures Keys(KeepFirst(fields, key), key) == Keys(fields, key)
    ensures Keyless(KeepFirst(fields, key), key) == Keyless(fields, key)
  {
    KeepFirstDistinct(fields, {}, key);
    KeepFirstKeys(fields, {}, key);
    KeepFirstKeyless(fields, {}, key);
  }

  /**
   * `uniqueFields`: keeps the first field of every name, in order.
   */
  method UniqueFields(fields: seq<Field>) returns (out: seq<Field>)
    ensures out == KeepFirst(fields, ByName)
    ensures Distinct(out, ByName)
    ensures Keys(out, ByName) == Keys(fields, ByName)
  {
    out := [];
    var fieldNames: set<string> := {};
    for i := 0 to |fields|
      invariant out + KeepFirstFrom(fields[i..], fieldNames, ByName) == KeepFirst(fields, ByName)
    {
      var field := fields[i];
      KeepFirstStep(fields, i, fieldNames, ByName);
      if field.name in fieldNames {
        continue;
      }
      ghost var rest := KeepFirstFrom(fields[i + 1..], fieldNames + {field.name}, ByName);
      assert out + ([field] + rest) == (out + [field]) + rest;
      fieldNames := fieldNames + {field.name};
      out := out + [field];
    }
    assert fields[|fields|..] == [];
    KeepFirstFacts(fields, ByName);
  }

  /**
   * `uniqueTags` for the `cty` key: keeps the first field claiming each
   * name, and every field that has no `cty` tag.
   */
  method UniqueTags(fields: seq<Field>) returns (out: seq<Field>)
    ensures out == KeepFirst(fields, ByCty)
    ensures Distinct(out, ByCty)
    ensures Keys(out, ByCty) == Keys(fields, ByCty)
    ensures Keyless(out, ByCty) == Keyless(fields, ByCty)
  {
    out := [];
    var uniqueTags: set<string> := {};
    for i := 0 to |fields|
      invariant out + KeepFirstFrom(fields[i..], uniqueTags, ByCty) == KeepFirst(fields, ByCty)
    {
      var field := fields[i];
      KeepFirstStep(fields, i, uniqueTags, ByCty);
      if field.tag.cty.Some? {
        var h := field.tag.cty.value;
        if h in uniqueTags {
          continue;
        }
        uniqueTags := uniqueTags + {h};
      } else {
        assert uniqueTags + KeySet(field, ByCty) == uniqueTags;
      }
      ghost var rest := KeepFirstFrom(fields[i + 1..], uniqueTags, ByCty);
      assert out + ([field] + rest) == (out + [field]) + rest;
      out := out + [field];
    }
    assert fields[|fields|..] == [];
    KeepFirstFacts(fields, ByCty);
  }
}
