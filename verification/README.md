# go-plotly generator renderer — a Dafny model

go-plotly generates Go types for every Plotly trace and for the plot layout
from Plotly's JSON schema. The renderer (`generator/renderer.go`) decides
what those types contain and then prints them through Go templates. This
project models the renderer's decisions as pure functions over immutable
data and proves what they guarantee:

- **identifier cleaning** (`cleanName`): each of fifteen symbols is replaced
  by a word ("-" becomes "Hyphen"). Every other character is kept, and a
  replacement word is never scanned again.
- **value escaping** (`cleanValue`): every backslash is doubled. The model
  pairs it with an unescaper and proves the round trip.
- **schema value types** (`valTypeMap`): each schema value type maps to its
  Go type name.
- **the Layout type** (`WriteLayout`):
  - The fields of the layout and of all traces are sorted by name and
    de-duplicated; the first field of each name wins.
  - Enums with the same name are merged by appending their values.
  - Ten axis fields, `XAxis2`..`XAxis6` and `YAxis2`..`YAxis6`, are appended
    at the end.
- **trace types** (`WriteTrace`): the `Type` discriminator is the first
  field, and the attribute fields follow it.
- **creating all traces** (`CreateTraces`): traces are created in ascending
  name order, and the run stops at the first failure.
- **the unmarshal type list** (`WriteUnmarshal`): the camel-cased trace
  names, sorted.
- **the linear search** `contains`.

Modules, one per file:

| file | module | contents |
|---|---|---|
| `wrappers.dfy` | `Wrappers` | `Option`, `Result`, and Go-style wrapped errors (`"context, cause"`) |
| `gostrings.dfy` | `GoStrings` | Go string order (`LessEq`), ASCII `ToLower`, decimal digits |
| `sequences.dfy` | `Sequences` | sortedness, distinctness, subsequences, a stable sort, first-occurrence de-duplication, `Contains` |
| `typegraph.dfy` | `TypeGraph` | the generated type graph: fields, structs, enums, flag lists, type files, value types |
| `naming.dfy` | `Naming` | `cleanName` and `cleanValue` |
| `layout.dfy` | `Layout` | `WriteLayout`'s assembly of the Layout type |
| `traces.dfy` | `Traces` | `WriteTrace`, `CreateTraces`, `WriteUnmarshal` |

Go's `sort.Sort` and `sort.Strings` are not stable, and Go's map iteration
order is unspecified. The model therefore takes each map enumeration as an
arbitrary sequence and sorts it with a stable insertion sort. Lemmas then
show that the result does not depend on these choices:
- `Traces.CreateTracesOrderIndependent` and
  `Traces.UnmarshalTypesOrderIndependent` cover the trace map order.
- `Layout.DedupNamesIndependentOfSortOrder` covers any sorted arrangement of
  the layout fields.

## Model

| member | source | states |
|---|---|---|
| TypeGraph.GoType | generator/renderer.go:405-421 | each Go type name is produced by exactly the listed schema value types (e.g. "NO-TYPE" exactly for enumerated and flag-list values, "float64" exactly for numbers and angles) |
| GoStrings.LessEqTotal | generator/renderer.go:152 | any two strings are comparable under `GoStrings.LessEq`, the byte-wise lexicographic order Go's `<` on strings uses and `sort.Strings` sorts by |
| GoStrings.LessEqTransitive | generator/renderer.go:152 | `GoStrings.LessEq` is transitive |
| GoStrings.LessEqAntisymmetric | generator/renderer.go:152 | two strings each at most the other are equal, so a sorted list without repeats is strictly ascending |
| GoStrings.LessEqReflexive | generator/renderer.go:152 | every string is at most itself |
| GoStrings.ToLower | generator/renderer.go:251 | lower-casing keeps the length and lowers each ASCII capital where it stands, changing no other character |
| Wrappers.MessageKeepsRoot | generator/renderer.go:100 | the text of an error built with `fmt.Errorf("<context>, %w", err)` (`Wrappers.Error.Message`) starts with the context and a comma and ends with the message of the error first reported |
| Naming.SymbolMapHasLetterWords | generator/renderer.go:424-440 | every symbol in the table is a non-letter and every replacement word is a non-empty run of letters |
| Naming.CleanName | generator/renderer.go:442-445 | the cleaned name contains none of the fifteen symbols and is at least as long as the input |
| Naming.CleanNameConcat | generator/renderer.go:442-445 | cleaning distributes over concatenation: the replacer works character by character and never re-scans what it emitted |
| Naming.CleanNameKeepsOthers | generator/renderer.go:442-445 | a character that is not one of the symbols is kept unchanged |
| Naming.CleanNameReplacesSymbol | generator/renderer.go:424-445 | a symbol is replaced by exactly its word from the table |
| Naming.CleanNameCharwise | generator/renderer.go:424-445 | wherever a character stands in a name, it is cleaned on its own: a symbol becomes its table word and any other character is kept, and the surrounding text is cleaned independently |
| Naming.CleanNameIdentity | generator/renderer.go:442-445 | a name without symbols is left unchanged |
| Naming.CleanNameIdempotent | generator/renderer.go:442-445 | cleaning a cleaned name changes nothing |
| Naming.HyphenWord | generator/renderer.go:427 | "-" becomes "Hyphen" |
| Naming.LettersKept | generator/renderer.go:442-445 | an all-letter name is unchanged |
| Naming.CleanNameHyphenated | generator/renderer.go:427-445 | for letter runs a and b, cleaning a-b gives aHyphenb, so the replacement word's letters are not scanned again |
| Naming.CleanValue | generator/renderer.go:446-448 | the backslash count doubles, all other characters are kept in order, and the length grows by the number of backslashes |
| Naming.CleanValueRoundTrip | generator/renderer.go:446-448 | un-escaping the escaped value gives back the original value |
| Naming.UnescapeValueInverse | generator/renderer.go:446-448 | any text that un-escapes to v is exactly the escaping of v (escaping is the unique inverse) |
| Sequences.Contains | generator/renderer.go:450-457 | returns true exactly when the element occurs in the slice |
| Sequences.SortBy | generator/renderer.go:215-216 | the sorted fields or enums are ordered by name and are a permutation of the input |
| Sequences.SortedPermutationUnique | generator/renderer.go:152 | two sorted permutations of the same strings are equal, so a sorted string list is determined by its contents |
| Sequences.Uniq | generator/renderer.go:218-229 | the names that survive de-duplication are distinct, are exactly the names of the input, and form a subsequence of it |
| Sequences.UniqFirstOccurrenceOrder | generator/renderer.go:218-229 | surviving names keep the order of their first occurrences |
| Layout.DedupFieldsNames | generator/renderer.go:218-229 | `Layout.DedupFields`, the first-occurrence de-duplication of the field list, keeps names that are the distinct input names in first-occurrence order: none twice, none lost, none invented |
| Layout.DedupFieldsSubsequence | generator/renderer.go:221-226 | the fields `Layout.DedupFields` keeps are a subsequence of the input: nothing is reordered or invented |
| Layout.DedupKeepsFirstOccurrence | generator/renderer.go:221-226 | every kept field is the first field of its name in the input |
| Layout.DedupFieldsLoop | generator/renderer.go:218-229 | the loop over a seen-names map keeps exactly the fields the first-occurrence de-duplication keeps, so the properties of `DedupFieldsNames` and `DedupFieldsSubsequence` hold of its result |
| Layout.DedupOfSortedIsStrictlySorted | generator/renderer.go:215-229 | de-duplicating name-sorted fields gives strictly ascending names |
| Layout.DedupNamesIndependentOfSortOrder | generator/renderer.go:215-229 | any two name-sorted arrangements of the same fields de-duplicate to the same names |
| Layout.MergeEnumsSpec | generator/renderer.go:231-243 | `Layout.MergeEnums` (with its step `Layout.MergeInto`) gives the distinct input names in first-occurrence order; each merged enum holds all values of its name, concatenated in input order; the total number of values is preserved |
| Layout.MergeEnumsLoop | generator/renderer.go:231-243 | the loop over a name-to-position map computes the merge |
| Layout.MergeOfSortedIsStrictlySorted | generator/renderer.go:216-243 | merging name-sorted enums gives strictly ascending names |
| Layout.MergeKeepsRepeatedValues | generator/renderer.go:241 | a value carried by two enums of the same name appears twice after the merge |
| Layout.AxisFieldsSpec | generator/renderer.go:245-255 | `Layout.AxisFields` (built from `Layout.AxisField`) is exactly ten fields XAxis2..XAxis6, YAxis2..YAxis6, each with the lower-cased name on the wire and type LayoutXaxis or LayoutYaxis |
| Layout.AxisWireName | generator/renderer.go:249-251 | an axis field's wire name is its Go name lower-cased |
| Layout.CollectFieldsSpec | generator/renderer.go:201-213 | `Layout.CollectFields`, the concatenation of the layout walk and the per-trace walks, fails exactly when a walk fails, reporting the first failing walk wrapped as "cannot parse attributes"; otherwise it holds exactly the fields the walks returned |
| Layout.TotalValuesPermutation | generator/renderer.go:216 | reordering the enums keeps the number of enum values |
| Layout.ValuesNamedPermutation | generator/renderer.go:216 | reordering the enums keeps, for every name, the same values of that name (as a multiset) |
| Layout.WriteLayoutSpec | generator/renderer.go:189-255 | `Layout.WriteLayout` fails exactly on a walk failure; otherwise Layout's fields are each collected name once, strictly ascending and each a collected field, followed by the ten axis fields; enum names are strictly ascending and match the collected names; each merged enum holds exactly the input values of its name (as a multiset, whatever order the sort chose), and the total count is kept |
| Traces.WriteTraceSpec | generator/renderer.go:77-118 | `Traces.WriteTrace` fails exactly when the attribute walk fails (wrapped as "cannot parse attributes"); otherwise the type is named after the camel-cased `type` of the schema entry, starts with the discriminator followed by the parsed fields, and its constant holds the schema key |
| Traces.DiscriminatorWireName | generator/renderer.go:85-90 | the discriminator is sent as "type", its Go name lower-cased, and has type TraceType |
| Traces.RunInOrderSpec | generator/renderer.go:153-158 | `Traces.RunInOrder`, the creation loop: the attempted traces are a prefix of the list; all attempts but the last succeeded; the run fails exactly when its last attempt failed, with that error wrapped as "cannot create trace" |
| Traces.CreateTracesPrefix | generator/renderer.go:148-158 | the attempted traces are the first names of the sorted name list, never more than there are traces |
| Traces.CreateTracesInOrder | generator/renderer.go:152-158 | traces are attempted in ascending name order |
| Traces.CreateTracesSucceeds | generator/renderer.go:147-160 | `Traces.CreateTraces` (collect the map's keys, sort, run in order) succeeds exactly when every trace can be created |
| Traces.CreateTracesFirstFailure | generator/renderer.go:152-158 | a failed run reports the failing trace with the smallest name |
| Traces.CreateTracesOrderIndependent | generator/renderer.go:148-152 | the run is the same whatever order the trace map is enumerated in |
| Traces.UnmarshalTypesSpec | generator/renderer.go:387-398 | `Traces.UnmarshalTypes` (camel-case every key via `Traces.CamelAll`, then sort) is sorted, has one entry per trace, and is the camel-cased trace names with multiplicity |
| Traces.UnmarshalTypesOrderIndependent | generator/renderer.go:392-395 | the type list does not depend on the trace map's enumeration order |

## Left out

- Template rendering, the header and `package` text, `format.Source`, and
  the `Creator` file sink are left out. They are I/O and text formatting.
  `CreateTraces` takes the creation of one trace as a parameter, so its
  outcome covers both `CreateTrace`'s formatting errors and its write
  errors.
- The attribute walk (`parseAttributes`) and the schema's types are not
  part of this model. Their outcomes are inputs:
  - one `Result` of fields per walk;
  - the nested structs, enums and flag lists collected along the way.
- `xstrings.ToCamelCase` is an opaque function parameter `camel`.
- `WriteConfig`, `CreateLayout`, `CreateUnmarshal` and `NewRenderer` are left
  out. They add only I/O around the modelled operations.
- Sequences.SortBy: Go's `sort.Sort` is unstable, and the model uses a
  stable insertion sort. Lemmas show that the kept field names, the trace
  order and the type list do not depend on this choice. Which of two
  same-named fields survives de-duplication does depend on it, and is
  therefore not pinned down.
- Sequences.SortBy: the enum list's `sort.Interface` is not part of this
  model. It is assumed to order enums by name, like the field list.
- Naming.CleanName: modelled per character, matching Go's byte-wise
  replacer. All fifteen symbols are single ASCII bytes, so a multi-byte
  character is never split or replaced.
- Naming.UnescapeValue: the inverse of `cleanValue` is used only to state
  the round trip. It decodes exactly the doubled-backslash escape.
- GoStrings.ToLower: lowers only ASCII letters. Go's `strings.ToLower` is
  full Unicode, and the axis names it is applied to are ASCII.
- Layout.MergeEnumsSpec: the merge appends values; it does not form a union
  that drops repeated values. The model follows the code
  (`Layout.MergeKeepsRepeatedValues`).
- Traces.WriteTrace: requires the trace name to be a key of the schema's
  trace map, as it is for every name `CreateTraces` passes. What a missing
  name yields (a zero value or a nil dereference) depends on the schema
  types, which are not part of this model.
