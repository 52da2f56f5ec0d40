# mapstructure-to-hcl2, modelled in Dafny

`mapstructure-to-hcl2` is Packer's code generator. It takes a set of Go
struct type names in one package and, for each one, writes two things:

- a *flat* copy of the struct (`FlatConfig` for `Config`), and
- an `HCL2Spec` method that tells the HCL decoder how to read the flat copy.

This project models the core of that generator. It covers:

- **Root selection** (`generate.dfy`).
  - The requested names are sorted.
  - Each definition of the package whose type is a named struct of the top
    package is looked up by binary search under its own identifier. Such a
    definition may be a type, a struct field, a variable or a parameter.
    A field `Config OtherConfig` therefore answers the request `Config`.
  - A name that matches is used up, so it matches once.
  - The matched structs are sorted by original name.
- **Squash flattening** (`flatten.dfy`).
  - Unexported fields and fields declared with a bare func type are
    dropped. Pointers to funcs and named func types are kept.
  - A `mapstructure:",squash"` field is replaced by the flattened fields of
    its struct.
  - Every other field has its type normalised:
    - one pointer is stripped;
    - basics become pointers;
    - named structs become pointers to their `Flat` copy;
    - slices of named structs point at the `Flat` copy;
    - `time.Duration`, `config.Trilean` and `powershell.ExecutionPolicy`
      get fixed replacements.
  - After every step, the first field of each Go name is kept.
- **Accessor synthesis** (`accessors.dfy`, `snakecase.dfy`).
  - Every field gets a `cty` tag. The tag is its non-empty `mapstructure`
    name, or else its Go name put through `ToSnakeCase`.
  - The first field claiming each `cty` name is kept.
- **Spec lowering** (`lowering.dfy`).
  - `outputHCL2SpecField` maps a field type to a tree of hcldec spec nodes.
  - `basicKindToCtyType` maps a basic kind to a cty type.
  - `outputStructHCL2SpecBody` builds one map entry per field, keyed by the
    `cty` name.

Supporting modules:

- `gotypes.dfy` is the fragment of Go's `go/types` the generator inspects.
- `unique.dfy` is the keep-the-first deduplication shared by
  `uniqueFields` and `uniqueTags`.
- `order.dfy` holds:
  - Go's bytewise string order;
  - `sort.SearchStrings`;
  - the slice cut `append(a[:pos], a[pos+1:]...)`;
  - the sorts, modelled as a stable insertion sort.

Loops of the source are methods proved against specification functions:

- `SquashedStruct` equals `FlatFields`.
- `AddCtyTagToStruct` equals `KeepFirst(WithAccessors(s), ByCty)`.
- `Generate` equals the sorted `Selection`.
- `SearchStrings` returns the sort.Search position.

The specification functions have their own properties proved as lemmas.

## Model

| member | source | states |
|---|---|---|
| GoTypes.QualifiedName | cmd/mapstructure-to-hcl2/mapstructure-to-hcl2.go:436-442 | the printed name of a named type is its package path, a dot, then its name; with no package it is the bare name |
| Unique.UniqueFields | cmd/mapstructure-to-hcl2/mapstructure-to-hcl2.go:498-513 | the loop keeps exactly the first field of each Go name, in order: the result is the KeepFirst specification, no name twice, and every input name still present |
| Unique.UniqueTags | cmd/mapstructure-to-hcl2/mapstructure-to-hcl2.go:379-398 | the loop keeps the first field of each `cty` tag value and every field without one, in order; no tag twice; every tag value still present |
| Unique.KeepFirstDistinct | cmd/mapstructure-to-hcl2/mapstructure-to-hcl2.go:498-513 | after deduplication no key appears twice |
| Unique.KeepFirstKeys | cmd/mapstructure-to-hcl2/mapstructure-to-hcl2.go:498-513 | deduplication loses no key: the keys of the result are the keys of the input, minus those already seen |
| Unique.KeepFirstSubsequence | cmd/mapstructure-to-hcl2/mapstructure-to-hcl2.go:498-513 | the result is a subsequence of the input: fields keep their relative order and are not changed |
| Unique.KeepFirstFirst | cmd/mapstructure-to-hcl2/mapstructure-to-hcl2.go:498-513 | each kept field is the first field of the input carrying its key |
| Unique.KeepFirstKeyless | cmd/mapstructure-to-hcl2/mapstructure-to-hcl2.go:385-388 | fields without a key are all kept, in order |
| Unique.KeepFirstIdempotent | cmd/mapstructure-to-hcl2/mapstructure-to-hcl2.go:498-513 | deduplicating twice is deduplicating once |
| Unique.KeepFirstOfDistinct | cmd/mapstructure-to-hcl2/mapstructure-to-hcl2.go:498-513 | a sequence with distinct keys is left unchanged |
| Unique.KeepFirstMerge | cmd/mapstructure-to-hcl2/mapstructure-to-hcl2.go:492-496 | deduplicating a deduplicated prefix followed by a part equals deduplicating the whole, so dedup after every step equals dedup once at the end |
| SnakeCase.LowerEndIsLongest | cmd/mapstructure-to-hcl2/mapstructure-to-hcl2.go:524 | the run of lower-case letters the first pattern takes is the longest one, as the greedy `[a-z]+` does |
| SnakeCase.ToSnakeCase | cmd/mapstructure-to-hcl2/mapstructure-to-hcl2.go:524-531 | the result has no upper-case ASCII letter |
| SnakeCase.SnakeCaseInsertsUnderscores | cmd/mapstructure-to-hcl2/mapstructure-to-hcl2.go:527-531 | the snake-cased name is the lower-cased name with only underscores inserted |
| SnakeCase.SnakeCaseIdempotent | cmd/mapstructure-to-hcl2/mapstructure-to-hcl2.go:527-531 | snake-casing a snake-cased name changes nothing |
| SnakeCase.SnakeCaseWord | cmd/mapstructure-to-hcl2/mapstructure-to-hcl2.go:524-531 | a single capitalised word is just lower-cased |
| SnakeCase.SnakeCaseTwoWords | cmd/mapstructure-to-hcl2/mapstructure-to-hcl2.go:524-531 | two capitalised words are lower-cased and joined by one underscore |
| SnakeCase.SnakeCaseAcronymWord | cmd/mapstructure-to-hcl2/mapstructure-to-hcl2.go:524-531 | a run of capitals before a word becomes one lower-case prefix, then an underscore, then the word |
| SnakeCase.CommandExample | provisioner/ansible-local/provisioner.hcl2spec.go:19 | the field `Command` is read as `command` |
| SnakeCase.GalaxyCommandExample | provisioner/ansible-local/provisioner.hcl2spec.go:33 | the field `GalaxyCommand` is read as `galaxy_command` |
| SnakeCase.AcronymExample | cmd/mapstructure-to-hcl2/mapstructure-to-hcl2.go:524-531 | `ABCDWord` becomes `abcd_word` |
| Flatten.FlatName | cmd/mapstructure-to-hcl2/mapstructure-to-hcl2.go:477-481 | the flat name is "Flat" followed by the original name |
| Flatten.FlattenNamed | cmd/mapstructure-to-hcl2/mapstructure-to-hcl2.go:477-481 | the flat copy keeps its package and its underlying struct, and only its name changes, to "Flat" + name |
| Flatten.MakePointer | cmd/mapstructure-to-hcl2/mapstructure-to-hcl2.go:483-485 | the field keeps its name and tag and gains exactly one pointer around its type |
| Flatten.FlatNameInjective | cmd/mapstructure-to-hcl2/mapstructure-to-hcl2.go:477-481 | two types get the same flat name if and only if they have the same name |
| Flatten.Normalize | cmd/mapstructure-to-hcl2/mapstructure-to-hcl2.go:429-471 | a field type under at most two pointers ends up under at most one |
| Flatten.NormalizeCases | cmd/mapstructure-to-hcl2/mapstructure-to-hcl2.go:429-471 | case by case: `T` and `*T` basic become `*T`; a named struct, pointed to or not, becomes a pointer to its Flat copy; slices of named structs, direct or through a named slice type, point at the Flat copy; maps lose one pointer; slices of basics or of pointers are unchanged; `*func` becomes `func`; one pointer around any non-pointer type is dropped first, so `*[]T`, a pointer to a named slice of structs, `*[]string` and `*time.Duration` normalise like the type they point to |
| Flatten.NormalizeOverride | cmd/mapstructure-to-hcl2/mapstructure-to-hcl2.go:429-443 | `time.Duration` and `ExecutionPolicy` become `*string` and `Trilean` becomes `*bool`; every other named type that is neither a struct nor a slice of named structs is kept; a pointer to any of these normalises the same way |
| Flatten.FlatFieldsWellFormed | cmd/mapstructure-to-hcl2/mapstructure-to-hcl2.go:402-475 | the flat struct has distinct field names, and every field is exported and not a squash |
| Flatten.SquashInPlace | cmd/mapstructure-to-hcl2/mapstructure-to-hcl2.go:415-424 | a squash field of struct type gives the same flat struct as its inner fields written in its place |
| Flatten.SquashNonStructDropped | cmd/mapstructure-to-hcl2/mapstructure-to-hcl2.go:415-421 | a squash field whose underlying type is not a struct contributes nothing |
| Flatten.DroppedField | cmd/mapstructure-to-hcl2/mapstructure-to-hcl2.go:406-411 | an unexported or func-typed field contributes nothing |
| Flatten.NamedFuncKept | cmd/mapstructure-to-hcl2/mapstructure-to-hcl2.go:406-411 | a field of a named func type is not dropped and is kept unchanged |
| Flatten.PointerToFuncKept | cmd/mapstructure-to-hcl2/mapstructure-to-hcl2.go:409-432 | a `*func` field escapes the func check and is kept, as a `func` |
| Flatten.StructFields | cmd/mapstructure-to-hcl2/mapstructure-to-hcl2.go:515-522 | the loop yields the i-th field's variable and the i-th tag, for every field |
| Flatten.NewStructOfStructFields | cmd/mapstructure-to-hcl2/mapstructure-to-hcl2.go:515-522 | rebuilding a struct from its fields and tags gives the struct back |
| Flatten.AddFieldToStruct | cmd/mapstructure-to-hcl2/mapstructure-to-hcl2.go:487-490 | appending a field keeps only the first field of each name |
| Flatten.SquashStructs | cmd/mapstructure-to-hcl2/mapstructure-to-hcl2.go:492-496 | concatenating two structs keeps only the first field of each name |
| Flatten.NormalizeField | cmd/mapstructure-to-hcl2/mapstructure-to-hcl2.go:429-471 | the step-by-step rebinding of the field gives the field with its normalised type, and nothing else changed |
| Flatten.SquashedStruct | cmd/mapstructure-to-hcl2/mapstructure-to-hcl2.go:402-475 | the recursive walk returns exactly the first field of each name in the expansion of the struct |
| Accessors.AddCtyTagToStruct | cmd/mapstructure-to-hcl2/mapstructure-to-hcl2.go:361-377 | every kept field carries its accessor as `cty` tag; accessors are distinct; every accessor of the input is present; each kept field is the first one claiming its accessor; order is kept |
| Accessors.AccessorChoice | cmd/mapstructure-to-hcl2/mapstructure-to-hcl2.go:364-370 | a non-empty `mapstructure` name wins; otherwise the snake-cased Go name is used, which has no capitals |
| Accessors.FirstClaimantWins | cmd/mapstructure-to-hcl2/mapstructure-to-hcl2.go:379-398 | of two fields with the same accessor only the first survives |
| Accessors.FlatStructWellFormed | cmd/mapstructure-to-hcl2/mapstructure-to-hcl2.go:123-124 | the struct built for each root has distinct Go names and distinct `cty` names, every field has a `cty` tag, and every field is exported and not a squash |
| Lowering.BasicKindToCtyType | cmd/mapstructure-to-hcl2/mapstructure-to-hcl2.go:285-302 | number if and only if an integer, float or complex kind; bool if and only if bool; string for every other kind |
| Lowering.Lower | cmd/mapstructure-to-hcl2/mapstructure-to-hcl2.go:220-283 | no spec node is required, and every attribute or block name is the accessor or the printed name of a named type inside the field type |
| Lowering.SelfDefinedFirst | cmd/mapstructure-to-hcl2/mapstructure-to-hcl2.go:221-224 | a `self-defined` tag gives the type's own spec, whatever the type |
| Lowering.PointersTransparent | cmd/mapstructure-to-hcl2/mapstructure-to-hcl2.go:226-227 | any number of pointers lower like the pointed-to type |
| Lowering.LowerScalarShapes | cmd/mapstructure-to-hcl2/mapstructure-to-hcl2.go:226-233 | a basic type of any kind, under any number of pointers, gives an optional attribute of its cty type |
| Lowering.LowerOtherShapes | cmd/mapstructure-to-hcl2/mapstructure-to-hcl2.go:226-239 | a map gives optional string block attributes and a func, interface, array or channel type gives a bool attribute marked TODO, under any number of pointers |
| Lowering.LowerCompositeShapes | cmd/mapstructure-to-hcl2/mapstructure-to-hcl2.go:240-274 | a slice of any basic kind, pointed to or not, gives a list attribute; a slice of any named type, pointed to or not, gives a block list around that type's spec; a slice of slices gives a block list around the inner spec; a named struct gives a block; every anonymous struct gives an object block |
| Lowering.NamedNonStructUsesTypeName | cmd/mapstructure-to-hcl2/mapstructure-to-hcl2.go:263-271 | a named struct gives a block under the accessor; any other named type is lowered as its underlying type under its printed type name, so the accessor does not matter |
| Lowering.SliceOfOtherUnwrapped | cmd/mapstructure-to-hcl2/mapstructure-to-hcl2.go:241-261 | a slice whose element, after one pointer is stripped, is not basic, named or a slice gets no list wrapper and lowers like the element |
| Lowering.MakePointerKeepsSpec | cmd/mapstructure-to-hcl2/mapstructure-to-hcl2.go:226-227 | a field wrapped by `makePointer` lowers to the same spec as before |
| Lowering.StructSpecBody | cmd/mapstructure-to-hcl2/mapstructure-to-hcl2.go:204-218 | one entry per field, in order, keyed by its `cty` name, with an optional spec |
| Lowering.SpecKeysDistinct | cmd/mapstructure-to-hcl2/mapstructure-to-hcl2.go:204-218 | distinct `cty` names give a spec map literal with distinct keys |
| Lowering.FlatStructSpec | cmd/mapstructure-to-hcl2/mapstructure-to-hcl2.go:204-218 | the spec of any flat struct has one optional entry per field and no key twice |
| Order.StrLeTotalOrder | cmd/mapstructure-to-hcl2/mapstructure-to-hcl2.go:149-151 | Go's string order is reflexive, antisymmetric, transitive and total |
| Order.SortBySorts | cmd/mapstructure-to-hcl2/mapstructure-to-hcl2.go:149-151 | sorting yields a sorted permutation of the input |
| Order.SearchStrings | cmd/mapstructure-to-hcl2/mapstructure-to-hcl2.go:117 | the binary search returns the boundary between the entries below the key and the rest |
| Order.SearchFinds | cmd/mapstructure-to-hcl2/mapstructure-to-hcl2.go:117-119 | on a sorted slice, the key is present if and only if it sits at the returned position, and no earlier copy exists |
| Order.RemoveFirstCount | cmd/mapstructure-to-hcl2/mapstructure-to-hcl2.go:122 | removing a present name takes exactly one copy of it out of the multiset |
| Order.CutIsRemoveFirst | cmd/mapstructure-to-hcl2/mapstructure-to-hcl2.go:122 | cutting out the found position removes the first copy of the name |
| Order.CutSorted | cmd/mapstructure-to-hcl2/mapstructure-to-hcl2.go:122 | cutting one element out of a sorted slice leaves it sorted |
| Generate.DefinitionMatchedByIdentifier | cmd/mapstructure-to-hcl2/mapstructure-to-hcl2.go:97-125 | a definition whose type is a named struct of the package, of any name, is matched under its own identifier with that struct's fields |
| Generate.FirstDefinitionWins | cmd/mapstructure-to-hcl2/mapstructure-to-hcl2.go:97-125 | of two eligible definitions with one identifier, the first met uses the name up, so definition order decides which struct is flattened |
| Generate.SelectionAccounting | cmd/mapstructure-to-hcl2/mapstructure-to-hcl2.go:97-131 | every requested name is either matched or left over, each copy once |
| Generate.SelectionSound | cmd/mapstructure-to-hcl2/mapstructure-to-hcl2.go:97-131 | every matched struct is the flat copy of an eligible definition and is named "Flat" + its name |
| Generate.SelectionComplete | cmd/mapstructure-to-hcl2/mapstructure-to-hcl2.go:97-131 | a requested name carried by an eligible definition is matched |
| Generate.Generate | cmd/mapstructure-to-hcl2/mapstructure-to-hcl2.go:92-151 | the structs are the selection sorted by name and the leftover names are sorted; every requested name is accounted for; the structs are sound and complete |

## Left out

- Output: writing the generated file, computing imports, the text form of specs, `goFmt`, and log output are not modelled. The model produces values, not Go source text. The rewrite of package paths in the emitted text is not modelled either. It shortens `github.com/x/pkg.Foo` to `pkg.Foo`, or to `Foo` for the top package. It therefore also changes the attribute names that Lowering.Lower takes from a named type's printed name, so the name the decoder finally reads can differ from the one `Lower` returns. When `goFmt` fails to format the output, it logs the error and still writes the unformatted bytes, so malformed Go source can reach disk.
- Package loading: the model receives the package's definitions as a sequence. The order of Go's map iteration over `Defs` is taken as that given order.
- Re-homing fields into the top package: the package a field belongs to is not modelled.
- Tag parsing: the model takes tags already parsed, so a tag that `structtag.Parse` rejects cannot be represented. The tool would crash on such a tag: the parse error is discarded and the nil result is used by `Get` and `Set`.
- Tag.selfDefined: this flag stands for a `self-defined` option under the empty tag key. The `structtag` parser may never produce an empty key, in which case the branch that SelfDefinedFirst describes is never taken in practice.
- Character classes are ASCII only: exported names, case mapping and `strings.ToLower` use ASCII, not Unicode.
- Recursive Go types are not modelled. Types are finite trees.
- Lowering.Lower: `ObjectSpecOf` and `SelfDefinedSpec` carry the Go type instead of its printed form, and the TODO comment is a marker node.
- Order.SortBySorts: `sort.Strings` and `sort.Slice` are not stable. The model sorts with a stable insertion sort, so it fixes one order among equal names. Equal names only arise when a name is requested twice.
