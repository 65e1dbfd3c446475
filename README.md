# koozie: unit listing, conversion dispatch and the `--list` renderer

koozie is a thin layer over the pint unit library for HVAC work. This
project models the deterministic logic koozie adds on top of pint and proves
properties of it:

- **The unit listing** (`get_unit_list`). The registry's names are grouped by
  the text of their dimensionality. The key is `"[]"` for dimensionless
  names. Each group records its canonical units in insertion order, with the
  names that alias each one. The registry's declared dimensions are then
  attached as dimension aliases of the group for their reference
  dimensionality. A dimension whose name is already a key is skipped. The
  groups are stably sorted by key length. `UnitList.GetUnitList` is a method
  with the source's two loops. Its loop invariants tie the local dict to the
  fold functions `GroupNames` and `AddDimensions`. The lemmas about those
  folds state what each group holds.
- **Scalar-or-sequence dispatch** (`fr_u`, `to_u`, `convert`). A scalar is
  converted once. A sequence is converted element by element, left to right,
  and the first pint error propagates.
- **Dimensionality fallback** (`get_dimensionality`). A name the registry
  lists gets its own dimensionality, or pint's `UndefinedUnitError` when pint
  cannot resolve it. Any other text gets the dimensionality of the empty unit
  `""` and never fails.
- **The `--list` callback** (`list_callback`). It returns early when the filter
  is missing or empty, or when click is only resilient-parsing. Otherwise it
  selects groups by the filter and echoes, for each one: a heading, an
  underline of dashes, the unit lines and a separator. Then it calls
  `context.exit()`. `Cli.ListCallback` returns the sequence of messages passed
  to `click.echo` (one element per call) and whether `context.exit()` was
  reached.

pint is not modelled. Every question koozie asks pint is a field of the
`Koozie.Registry` datatype, an uninterpreted input:

- the iteration order of the registry's names;
- membership (`u in unit_registry`);
- the dimensionless flag, the dimensionality, its printed text and the
  canonical (first) unit of a name;
- the declared dimensions and the resolution of their references;
- the three per-value conversions. These return a `Result` carrying pint's
  `UndefinedUnitError` or `DimensionalityError`.

Magnitudes are `real`. No arithmetic is done on them in this repository's
code, so the choice does not matter.

Python's insertion-ordered dicts are modelled by values:

- `Listing` is the keys in insertion order plus a map;
- inside a group, `unitNames` is the ordered keys of the `units` dict.

The source creates each group's lists fresh and never shares them, so
updating values gives the same result as Python's in-place `.append` and
item assignment.

Files: `wrappers.dfy` (Option, Result), `koozie.dfy` (the registry interface,
dispatch, dimensionality), `unit_list.dfy` (the listing), `cli.dfy` (the list
callback).

## Model

| member | source | states |
|---|---|---|
| `Koozie.MapAll` | koozie/koozie.py:80 | The list comprehension succeeds iff every element's conversion succeeds. On success it has the input's length and element i is the conversion of input i. On failure the error is that of the first failing element. |
| `Koozie.Dispatch` | koozie/koozie.py:78-80 | A scalar gives exactly the single conversion. A sequence gives a sequence of the same length, converted elementwise, or the first element's error. |
| `Koozie.FrU` | koozie/koozie.py:74-80 | A scalar gives the one `fr_q` magnitude. A sequence succeeds iff every element does, and then gives a list of equal length whose element i is the magnitude for input i. |
| `Koozie.ToU` | koozie/koozie.py:83-89 | The same for `to_q`. |
| `Koozie.Convert` | koozie/koozie.py:92-98 | The same for `convert_q` with both units. |
| `Koozie.GetDimensionality` | koozie/koozie.py:101-106 | It fails iff the text is a listed name that pint cannot resolve, and then with `UndefinedUnitError` naming it. A listed name that resolves gets its own dimensionality. Any unlisted text gets the dimensionality of the empty unit and never fails. |
| `Koozie.UnlistedTextsCompareEqual` | koozie/koozie.py:105-106 | Any two unlisted strings succeed with equal dimensionalities. |
| `UnitList.GroupKeysAreDimensionalities` | koozie/koozie.py:103-104 | The groups of the first loop of `get_unit_list` are exactly the keys of the listed names that `get_dimensionality` resolves: `"[]"` when dimensionless, else the text of the dimensionality it returns. Each of them is in the final dict. |
| `UnitList.GetUnitList` | koozie/koozie.py:109-136 | The two loops and the sort compute exactly `SortedListing`. |
| `UnitList.GroupRegistryNames` | koozie/koozie.py:111-124 | The first loop, run on the registry's names in iteration order, produces exactly the fold `GroupNames` over those names. |
| `UnitList.AttachDimensionAliases` | koozie/koozie.py:126-135 | The second loop, run on the declared dimensions in order from the dict of the first loop, produces exactly the fold `AddDimensions`. |
| `UnitList.SortedListing` | koozie/koozie.py:136 | The result is a permutation of the accumulated groups, with non-decreasing key length, and every group's units dict is well formed. |
| `UnitList.Items` | koozie/koozie.py:136 | `unit_list.items()` lists every key in insertion order with its group. |
| `UnitList.InsertByKeyLength` | koozie/koozie.py:136 | Inserting adds exactly one item to the multiset. The first item is then either the inserted one or the old first one. |
| `UnitList.InsertKeepsSorted` | koozie/koozie.py:136 | Inserting into a sequence sorted by key length keeps it sorted. |
| `UnitList.SortByKeyLength` | koozie/koozie.py:136 | The sort is a permutation of its input and is ordered by non-decreasing key length. |
| `UnitList.SortIsStable` | koozie/koozie.py:136 | For every length, the items with keys of that length keep their relative order. |
| `UnitList.UnitListEntries` | koozie/koozie.py:109-136 | A (key, group) pair is in the sorted listing iff the key is a group key of the dict and the group is its value. |
| `UnitList.UnitListKeysDistinct` | koozie/koozie.py:111-136 | No key appears twice in the sorted listing. |
| `UnitList.GroupNames` | koozie/koozie.py:112-124 | After the first loop, keys are distinct. Each group's unit entries are distinct, so a canonical unit is inserted at most once. |
| `UnitList.AddDimensions` | koozie/koozie.py:127-135 | The second loop keeps keys and unit entries distinct. |
| `UnitList.UnitListing` | koozie/koozie.py:111-135 | The dict before sorting is well formed. |
| `UnitList.AddNameStep` | koozie/koozie.py:113-124 | One name: a group exists afterwards iff it existed or the name is a member with that key. Dimension aliases are untouched. Unit c is an entry iff it was, or the name has canonical unit c there. Its aliases gain the name exactly when the name differs from c. |
| `UnitList.GroupNamesKeys` | koozie/koozie.py:112-119 | Group k exists after the first loop iff some member name has key k: `"[]"` if dimensionless, else its dimensionality text. |
| `UnitList.GroupNamesNoDimensionAliases` | koozie/koozie.py:118-119 | Every group has an empty dimension-alias list after the first loop. |
| `UnitList.GroupNamesUnitKeys` | koozie/koozie.py:120-122 | Unit c is an entry of group k iff some member name of group k has canonical unit c. |
| `UnitList.GroupNamesUnitAliases` | koozie/koozie.py:120-124 | The alias list of unit c in group k is exactly the member names of group k that have canonical unit c and differ from it, in registry order. |
| `UnitList.AliasesOfSound` | koozie/koozie.py:123-124 | Every recorded alias is a registry member of that group, with that canonical unit, and differs from it. |
| `UnitList.NoUnitIsItsOwnAlias` | koozie/koozie.py:123-124 | No unit lists itself as an alias. |
| `UnitList.AddNameExtends` | koozie/koozie.py:118-124 | One name never resets a group or a unit entry. It only appends keys, units and aliases. |
| `UnitList.GroupNamesExtends` | koozie/koozie.py:112-124 | The dict after any prefix of the first loop is extended, never reset, by the rest of the loop. |
| `UnitList.AddDimensionExtends` | koozie/koozie.py:127-135 | One dimension never resets a group. It only appends. |
| `UnitList.AddDimensionsExtends` | koozie/koozie.py:127-135 | The dict after any prefix of the second loop is extended, never reset, by the rest of it. |
| `UnitList.AddDimensionStep` | koozie/koozie.py:127-135 | A dimension whose name is already a key adds nothing. Otherwise its name is appended to the aliases of the group keyed by its reference dimensionality, and that key is added at the end if it is new. Unit entries are unchanged. |
| `UnitList.AddDimensionsKeepKeys` | koozie/koozie.py:126-135 | The second loop never removes a key from the dict. |
| `UnitList.AddDimensionsKeepUnits` | koozie/koozie.py:127-135 | The second loop leaves every group's units as they were. Groups it creates have no units. |
| `UnitList.AddDimensionsAliases` | koozie/koozie.py:127-135 | The second loop only appends dimension aliases. Each one it appends to group k is the name of a declared dimension whose reference has key k, and is not a key from the first loop. |
| `UnitList.AddDimensionsAttaches` | koozie/koozie.py:127-135 | Conversely, a declared dimension whose name is not a key when the loop reaches it is, after the loop, a dimension alias of the group keyed by its reference dimensionality, and that group exists. |
| `UnitList.UnitListingUnits` | koozie/koozie.py:112-135 | In the final dict, unit c is an entry of group k iff some member name of group k has canonical unit c. Its aliases are exactly the names recorded for it, in registry order. |
| `Cli.ListCallback` | koozie/cli.py:7-32 | A missing or empty filter, or resilient parsing, echoes nothing and does not exit. Otherwise it echoes the rendering of the sorted listing and exits. |
| `Cli.EchoSelected` | koozie/cli.py:14-30 | The loop over the sorted listing echoes exactly `RenderListing`: for each item in order, the group's lines when the filter selects it and nothing otherwise. |
| `Cli.EchoGroup` | koozie/cli.py:19-30 | The echoes of one selected group are exactly `GroupLines`. It needs only that every unit name of the group has an entry in its units dict. |
| `Cli.Contains` | koozie/cli.py:18 | Python's `p in s` holds iff p occurs in s at some index. |
| `Cli.AliasSuffix` | koozie/cli.py:15-17 | The alias suffix is empty iff the alias list is empty. |
| `Cli.UnitLinesAt` | koozie/cli.py:22-29 | The lines of the first n units are n lines. Line j is `"  - "` + unit j + its alias suffix, in the `units` dict's insertion order. |
| `Cli.Dashes` | koozie/cli.py:21 | `"-" * n` has length n and every character is `-`. |
| `Cli.GroupLinesShape` | koozie/cli.py:19-30 | A selected group echoes one line per unit plus three. The first is the heading (the key followed by the alias suffix). The second is exactly as many dashes as the heading has characters. The last is the separator `"\n"`. |
| `Cli.GroupLinesUnits` | koozie/cli.py:22-29 | Between the underline and the separator, line j + 2 is `"  - "` + unit j + its alias suffix, in insertion order. |
| `Cli.JoinContainsParts` | koozie/cli.py:17 | `", ".join(aliases)` contains every alias. |
| `Cli.AliasSelectsGroup` | koozie/cli.py:15-18 | Filtering by any one of a group's dimension aliases selects that group. |
| `Cli.Emitted` | koozie/cli.py:14-18 | A group is emitted iff it is in the listing and one of these holds: the filter is a substring of its key, the filter is `"*"`, or the filter is a substring of its alias suffix. |
| `Cli.RenderListingIsEmittedGroups` | koozie/cli.py:14-30 | The output is exactly the echoes of the emitted groups, one after the other, in listing order. |
| `Cli.StarEmitsAll` | koozie/cli.py:18 | The filter `"*"` emits every group. |
| `Cli.EmittedKeepsOrder` | koozie/cli.py:14 | The emitted groups stay sorted by key length, as `get_unit_list` ordered them. |

## Left out

- pint itself is not modelled. Its conversion arithmetic (floating point,
  affine temperature offsets), unit-expression parsing, `to_base_units`,
  dimensionality algebra and registry `define` semantics are uninterpreted
  fields of `Registry`. pint is a foreign library whose source is not part of
  this model. No claim is made about specific numbers, such as -40 °F = -40 °C.
- Registry construction (koozie/koozie.py:14-53) is not modelled. This covers
  the `str.replace` patches of pint's bundled definition files, their
  concatenation into `full_template` (the constants lines followed by the
  units lines), and the `define` calls for aliases, dimensions and units. The
  patches depend on the contents of vendor files that are not part of this
  model. The registry that results is the `Registry` input.
- `fr_q`, `to_q`, `convert_q` (koozie/koozie.py:57-70) are the three
  per-value conversion fields of `Registry`. Each is a composition of pint
  calls with no other koozie logic.
- `Koozie.GetDimensionality`: `unit_registry.Unit(units)` is taken to fail
  exactly when the membership test `units in unit_registry` fails. pint's
  parser is not modelled, so the two are the one field `isMember`.
- The `dimensionality` field of `Registry` stands for both
  `unit_registry.Unit(u).dimensionality` (koozie/koozie.py:104) and
  `unit_registry[u].dimensionality` (koozie/koozie.py:117). The model treats
  the two pint lookups as one.
- `UnitList.GetUnitList`: pint's `unit_registry[u]` is taken to succeed for
  every member name, as the membership test in the source intends.
- Python's `sorted` is a library call with no loop in the source. It is
  modelled as the pure stable insertion sort `SortByKeyLength`. What is
  proved about it is what `sorted` promises: a permutation, ordered by key
  length, stable.
- `format_units` is not modelled. It is not defined in koozie/koozie.py or
  koozie/cli.py: it is pint's formatter re-exported.
- The click command plumbing is not modelled (koozie/cli.py:35-67): option and
  argument declarations, help and version, and the `sys.exit` error mapping.
- `Cli.ListCallback`: the `UnicodeEncodeError` fallback that echoes a unit
  line without its aliases (koozie/cli.py:26-29) is not modelled. It depends
  on the terminal's encoding, and the model always echoes the full line.
- dodo.py holds build and test task configuration with no domain logic.
