# evtxtocsv core, modelled in Dafny

evtxtocsv turns the events of a Windows EVTX log into one CSV file. Each
decoded event is an ordered dictionary whose values are scalars or nested
dictionaries. The converter:

1. flattens every event into a flat record. `flattenDict` walks the
   dictionary depth-first and writes each scalar under its dotted full path
   (`System.Provider.Name`). A top-level scalar keeps its bare name.
2. collects the keys of all records into a field set;
3. copies the field set into `fullKeys` and sorts it with `sort.Strings`.
   It labels each column with the text after the key's last dot;
4. emits one row per record, in decode order. Each row has one cell per
   full key, and a key the record lacks gives `""`.

The project models these four steps, in four modules:

- `strings.dfy`, module `Strings`: the order `sort.Strings` uses (`Less`),
  and `strings.Split(s, ".")` with its inverse `Join`. The column label
  `ShortHeader` is the last part of the split.
- `flatten.dfy`, module `Flatten`: the event tree (`Tree`, `Field`, `Dict`).
  `FlattenDict` is the recursive method. The Go map it fills is passed by
  reference, so it is a `FlatRecord` object whose `cells` field the method
  updates in place. Its specification is `Store(old, Leaves(prefix, d))`:
  the depth-first list of writes, applied in order, the last write to a
  path winning. A second view of the same walk, `NameLeaves`, lists each
  scalar with the field names leading to it. The lemmas prove that a full
  path is the dotted join of those names. They also prove that when the
  names at each level are non-empty, dot-free and distinct, no two scalars
  collide and no nested dictionary gets an entry.
- `schema.dfy`, module `Schema`: the field set (`Universe`), the column
  order (`Columns`: the keys, least first), and `SortStrings`, an in-place
  insertion sort standing for `sort.Strings`. `FullKeys` builds the slice
  in arbitrary map order and sorts it, and is proved to equal `Columns`.
  The column order therefore does not depend on map iteration order.
  `ShortHeaders` fills the label array by index.
- `convert.dfy`, module `Convert`: the row projection (`ProjectRow`), the
  first pass over chunks and events (`CollectRecords`, `AddKeys`), and
  `Run`, which is `main` from the decoded chunks to the header and rows
  given to the CSV writer.
- `scenarios.dfy`, module `Scenarios`: small concrete cases. They cover a
  logon event, a sort, two columns sharing a label, a collision through a
  dotted field name, and empty input.

Go compares strings byte by byte over their UTF-8 encoding. That order is
the same as comparing code points, and `Less` compares Dafny characters,
which are code points.

Where one might expect more of the code than it does, the model follows the code:

- The code discards the errors of `evtx.GetChunks` and `chunk.Parse` (with
  `_`). It neither fails fast nor counts a skipped record.
- The code does not check that field names are non-empty or unique.
- Every key `flattenDict` looks up comes from `d.Keys()`, so a missing
  value cannot occur.

## Model

| member | source | states |
|---|---|---|
| Strings.LessIsLexicographic | main.go:57 | the order used for sorting is lexicographic: `a` comes before `b` exactly when `a` is a proper prefix of `b`, or when at the first position where they differ `a` has the smaller character |
| Strings.LessIrreflexive | main.go:57 | no key sorts before itself |
| Strings.LessAsymmetric | main.go:57 | two keys are never each before the other |
| Strings.LessTransitive | main.go:57 | the sort order is transitive |
| Strings.LessTotal | main.go:57 | any two different keys are ordered one way or the other, so sorting leaves no ties between distinct keys |
| Strings.LessEqTransitive | main.go:57 | the non-strict order that `sort.Strings` produces is transitive |
| Strings.Split | main.go:62 | `strings.Split(full, ".")` returns at least one part, and no part contains a dot |
| Strings.JoinSplit | main.go:62 | joining the parts of a split with dots gives back the full key |
| Strings.SplitJoin | main.go:62 | splitting the dotted join of dot-free names gives back exactly those names |
| Strings.ShortHeaderIsLastSegment | main.go:62-63 | the label is a dot-free suffix of the key that is either the whole key or preceded by a dot: the text after the last dot |
| Strings.ShortHeaderOfJoin | main.go:62-63 | the label of a path of dot-free names is the last name, the leaf's own field name |
| Strings.JoinInjective | main.go:91-94 | different lists of dot-free names give different dotted paths |
| Flatten.FlattenDict | main.go:87-103 | after the call, `out` holds its old entries with the walk's scalar writes applied in depth-first key order; nested dictionaries are recursed into and write nothing themselves |
| Flatten.StoreAppend | main.go:96-98 | a nested call's writes land in the same map and continue the parent's sequence of writes |
| Flatten.StoreKeys | main.go:87-103 | flattening only adds keys: afterwards the map's keys are the old keys plus the written full paths |
| Flatten.StoreKeepsOthers | main.go:87-103 | an entry whose key is not a written path stays exactly as it was |
| Flatten.StoreLastWins | main.go:100 | when two scalars share a full path, the later write decides the value |
| Flatten.NameLeaves | main.go:89-101 | every scalar is reached through at least one field name, and the first name is a key of the dictionary |
| Flatten.LeavesAreJoinedNames | main.go:91-94 | with non-empty names at every level, each written path is the dotted join of the field names from the root to the scalar: the bare name at the root, `prefix.key` below it |
| Flatten.NameLeavesDistinct | main.go:89-101 | with unique keys at every level (and no other condition on names), no two scalars have the same list of names |
| Flatten.LeavesAreNotNodes | main.go:96-98 | with unique keys at every level (and no other condition on names), no scalar has the name list of a nested dictionary |
| Flatten.LeafPathsDistinct | main.go:91-101 | with non-empty, dot-free, unique names, no two writes go to the same full path |
| Flatten.FlattenedHasEveryLeaf | main.go:96-101 | with non-empty, dot-free, unique names at every level, the flat record holds every scalar under its dotted path, with its text |
| Flatten.FlattenedOnlyLeaves | main.go:96-101 | with non-empty names at every level (dots and repeated names allowed), every key of the flat record is the dotted path of some scalar |
| Flatten.FlattenedNoNodes | main.go:97-98 | with non-empty, dot-free, unique names at every level, no nested dictionary has an entry of its own in the flat record |
| Schema.UniverseIsUnion | main.go:47-49 | a key is in the field set if and only if some flattened record has it |
| Schema.ColumnsSpec | main.go:53-57 | the columns are the keys of the field set, each exactly once and nothing else, in strictly ascending order |
| Schema.SortedUnique | main.go:57 | two strictly ascending key sequences with the same elements are equal |
| Schema.ColumnsUnique | main.go:53-57 | any strictly ascending listing of the field set is the column order, so the order does not depend on map iteration order |
| Schema.SortStrings | main.go:57 | sorting in place leaves the slice in ascending order and a permutation of what it was |
| Schema.Insert | main.go:57 | one insertion step of the sort makes `a[..i+1]` ascending and a permutation of its old contents, leaves `a[i+1..]` unchanged, and keeps the slice a permutation of itself |
| Schema.OrderedDistinctIsSorted | main.go:53-57 | an ascending slice in which no key occurs twice is strictly ascending |
| Schema.FullKeys | main.go:53-57 | the field set copied into a slice in any order and then sorted is exactly the column order |
| Schema.ShortHeaders | main.go:60-64 | there is one label per full key, at the same position, and it is that key's last segment |
| Convert.ProjectRow | main.go:78-81 | a row has exactly one cell per full key; cell `i` is the record's text at key `i` when present and `""` otherwise |
| Convert.AddKeys | main.go:47-49 | adding a record's keys grows the field set by exactly those keys |
| Convert.CollectRecords | main.go:30-51 | one flat record per event, chunk after chunk and event after event, appended in decode order; the field set is the union of their keys |
| Convert.Run | main.go:30-83 | the header labels every column in sorted full-key order; there is one row per event in decode order; every row has one cell per column, holding the event's text or `""` |
| Scenarios.LogonEventFlattened | main.go:87-103 | `{System: {EventID: 4624, Provider: {Name: Security}}, Level: 4}` flattens to `System.EventID`, `System.Provider.Name` and `Level` with those texts |
| Scenarios.KeysSortAscending | main.go:57 | the keys `Z.a`, `A.b`, `A.a` become the columns `A.a`, `A.b`, `Z.a` |
| Scenarios.SharedLabelKeepsBothColumns | main.go:57-64 | `A.Name` and `B.Name` remain two columns in that order, both labelled `Name` |
| Scenarios.DottedNameCollision | main.go:100 | a field named `a.b` and a field `b` nested in `a` both write `a.b`; the later one in key order wins |
| Scenarios.EmptyInputHasNoColumns | main.go:30-57 | with no events there are no records and no columns |

## Left out

- `handleArguments` (the `--file` flag, the `.evtx` suffix check and the exits) is not modelled, because it is command-line plumbing.
- Opening the input file, creating `output.csv`, the error messages and `os.Exit(1)` are not modelled, because they are file-system I/O.
- `evtx.GetChunks` and `chunk.Parse` are foreign binary decoders. Their result is the input of `Run`: a sequence of chunks, each a sequence of decoded events. Their errors are discarded by the source, so they have no model.
- The type assertion `event.Event.(*ordereddict.Dict)` panics on an event that is not a dictionary. The model's events are dictionaries by type, so the panic is not modelled.
- `fmt.Sprintf("%v", v)` is Go's reflection-based formatting. A scalar carries its rendered text as given. Any value that is not a `*ordereddict.Dict`, including Go maps and slices, falls in the scalar case, as in the source.
- `csv.NewWriter`, `writer.Write` and `Flush` are the standard CSV writer, which does its own quoting and escaping. The model's output is the header and the rows handed to it. Write errors, which the source ignores, are not modelled.
- Go's random map iteration order is modelled as an arbitrary choice (`:|`) in `AddKeys` and `FullKeys`.
- Strings are sequences of Unicode code points. Byte strings that are not valid UTF-8 cannot be represented, although Go would sort them byte by byte.
- A dictionary is a sequence of entries that the model does not require to have distinct names. The ordered dictionary of the source has unique keys. Each entry is read with its own value, which is what `d.Get(key)` returns when keys are unique.
- Flatten.LeafPathsDistinct, Flatten.FlattenedHasEveryLeaf and Flatten.FlattenedNoNodes hold only when names are non-empty, dot-free and unique at each level. Without that, Flatten.StoreLastWins and Scenarios.DottedNameCollision describe the outcome.
- An empty field name keeps the prefix empty, so the children of that entry get bare names. `FullKey` models this as written. Flatten.LeavesAreJoinedNames and Flatten.FlattenedOnlyLeaves are stated for non-empty names only, because a path is then no longer the dotted join of the names.
- A `*ordereddict.Dict` that is shared between two places or contains itself cannot be written as a `Tree`, which is a finite tree by construction. On such a cycle `flattenDict` would recurse until the stack overflows. `FlattenDict` terminates (`decreases d`) only because the datatype is well-founded. The decoder builds trees, so this case does not arise.
