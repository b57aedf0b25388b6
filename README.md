# Interface finder: a Dafny model

This project models Slither's `interface-finder` printer. For each compilation unit, in order, the printer lists three kinds of declaration:

- the contracts flagged `is_interface`,
- the top-level enums,
- the top-level structs.

Each declaration is annotated with the Solidity version pragmas of its own file scope. Declarations whose file name contains `node_modules` are skipped. All rows go into one list shared by every unit. The printer reports either a "none found" line, or a `Found N item(s)` line with a table of four columns: Name, Type, File and Pragma Version.

Files:

- `wrappers.dfy`: the `Option` type, which stands for Python's `None`.
- `strings.dfy`: the string operations the printer uses:
  - the substring test `sub in s` (`Contains`, specified by `OccursAt`);
  - `sep.join(parts)` (`Join`);
  - the decimal rendering of the count in the summary (`Decimal`).
- `interface_finder.dfy`: the data model and the operations.
  - The data model is plain values: `Item`, `Contract`, `Pragma`, `Unit`, `Row` and `Report`.
  - The resolver `_get_pragma_version_for_item` is the method `ResolvePragmaVersion`. Its loops collect the matching pragma versions and then list the set of them.
  - The collector loops of `output` are `CollectItems`, `CollectUnitItems`, `CollectInterfaces` and `CollectItemsOfKind`.
  - The report assembly is `Output`.
  - Next to the operations are the functions that specify them:
    - `MatchingVersions` and `ScopedVersions`: which versions apply to a declaration.
    - `RangeOk`: which version ranges the resolver may return.
    - `Entries`: which declarations become rows, and in which order.
    - `RowFor` and `CellsFor`: what each row shows.
    - `SummaryAgrees`: how the summary relates to the table.
- `interface_finder_properties.dfy`: lemmas about those specification functions, plus concrete scenarios.

Python's `set(...)` is iterated in an order the language leaves open. The resolver therefore picks the next version by a nondeterministic choice. Its contract compares the versions as a set, and requires that the list has no duplicates. For that reason the collector's contracts are relations (`RowFor`, `CellsFor`) and not equalities.

A file scope (`ScopeId`) is compared by identity and never rebuilt from a path. A file name (`Path`) has two parts:

- its `str(...)` text, where the `node_modules` marker is looked for;
- its relative form, which the table shows.

The relative form is a field of `Path`, so the path utilities stay opaque.

As written, the code runs the pragma scan only when the declaration has a source mapping (`if item_file`, line 25). A declaration without one is listed with file `Unknown` and range `No version specified`, even if its scope declares a version. The model follows the code, and `ScenarioNoSourceMapping` states the code's behaviour.

## Model

| member | source | states |
|---|---|---|
| `InterfaceFinder.ResolvePragmaVersion` | slither/printers/custom/interface_finder.py:15-41 | Skips exactly the declarations whose file name contains `node_modules`. Otherwise it returns the relative path or "Unknown" as the file. The range lists, once each, exactly the versions of the version pragmas of the item's own scope, or is the sentinel when there are none. A declaration without a source mapping always gets ("No version specified", "Unknown"). |
| `InterfaceFinder.CollectItems` | slither/printers/custom/interface_finder.py:54-89 | The rows are, position by position, rows for `Entries(units)`: unit by unit, with the one list never reset. |
| `InterfaceFinder.CollectUnitItems` | slither/printers/custom/interface_finder.py:56-89 | For one unit, keeps the rows already collected unchanged as a prefix, and after them appends the rows of its interfaces, then its enums, then its structs. |
| `InterfaceFinder.CollectInterfaces` | slither/printers/custom/interface_finder.py:58-67 | The contract loop keeps the rows already collected as a prefix, and appends one 'Interface' row for each non-vendored contract flagged `is_interface`, in contract order. |
| `InterfaceFinder.CollectItemsOfKind` | slither/printers/custom/interface_finder.py:70-89 | The enum and struct loops keep the rows already collected as a prefix, and append one row of their type for each non-vendored declaration, in collection order. |
| `InterfaceFinder.Output` | slither/printers/custom/interface_finder.py:91-116 | There is no table exactly when nothing was collected, and the text is then the "none found" message. Otherwise there is one table, "Interfaces, Enums & Structs", with the header Name/Type/File/Pragma Version. The N of "Found N item(s)" is its row count, and row k shows the k-th collected declaration. |
| `InterfaceFinder.RowCellsFor` | slither/printers/custom/interface_finder.py:99-105 | A table row shows the declaration's name, its type, its display path and the text of a valid version range. |
| `Strings.Contains` | slither/printers/custom/interface_finder.py:20 | The `"node_modules" in str(item_file)` test holds exactly when the marker occurs at some position. |
| `Strings.JoinContainsParts` | slither/printers/custom/interface_finder.py:34 | Every version joined with ", " occurs in the rendered range. |
| `Strings.DecimalRoundTrip` | slither/printers/custom/interface_finder.py:94 | The count written in the summary reads back as the count. |
| `InterfaceFinderProperties.MatchingVersionsMembers` | slither/printers/custom/interface_finder.py:28-30 | A version is collected exactly when some pragma with `is_solidity_version` in the item's scope carries it. |
| `InterfaceFinderProperties.RangeVersionsExact` | slither/printers/custom/interface_finder.py:25-34 | For an item with a file, the set of listed versions equals the set of versions of the matching pragmas. |
| `InterfaceFinderProperties.SentinelIffNoMatchingPragma` | slither/printers/custom/interface_finder.py:25-36 | For an item with a file, the range is "No version specified" exactly when no pragma is a version pragma of its scope. |
| `InterfaceFinderProperties.NonMatchingPragmaIgnored` | slither/printers/custom/interface_finder.py:28-30 | Inserting a non-version pragma, or one of another scope, anywhere among the directives changes neither the collected versions (as a sequence) nor the item's set of versions. |
| `InterfaceFinderProperties.MatchingVersionsConcat` | slither/printers/custom/interface_finder.py:28-30 | The versions collected from two runs of pragmas are those of the first run followed by those of the second, so directive order is kept. |
| `InterfaceFinderProperties.DistinctListedOnce` | slither/printers/custom/interface_finder.py:34 | A duplicate-free list holds each of its values exactly once. |
| `InterfaceFinderProperties.DistinctCardinality` | slither/printers/custom/interface_finder.py:34 | A duplicate-free list is as long as the set of its values. |
| `InterfaceFinderProperties.DistinctSingleton` | slither/printers/custom/interface_finder.py:34 | A duplicate-free list whose only value is v is `[v]`. |
| `InterfaceFinderProperties.RangeListsEachVersionOnce` | slither/printers/custom/interface_finder.py:33-34 | Each applying version appears exactly once in the range and occurs in the rendered cell. The range is as long as the set of applying versions. |
| `InterfaceFinderProperties.NoSourceMappingIsSentinel` | slither/printers/custom/interface_finder.py:17-39 | Without a source mapping, the item is not vendored, its file is "Unknown", and its range is the sentinel whatever the pragmas. |
| `InterfaceFinderProperties.InterfaceEntriesMembers` | slither/printers/custom/interface_finder.py:58-67 | The contract loop lists exactly the non-vendored contracts flagged `is_interface`, each as 'Interface'. |
| `InterfaceFinderProperties.ItemEntriesMembers` | slither/printers/custom/interface_finder.py:70-89 | The enum and struct loops list exactly the non-vendored declarations, each with the loop's type. |
| `InterfaceFinderProperties.ItemEntriesConcat` | slither/printers/custom/interface_finder.py:70-89 | The rows of two runs of declarations are the rows of the first run followed by those of the second, so collection order is kept. |
| `InterfaceFinderProperties.InterfaceEntriesConcat` | slither/printers/custom/interface_finder.py:58-67 | The rows of two runs of contracts are the rows of the first run followed by those of the second, so contract order is kept. |
| `InterfaceFinderProperties.ItemEntriesCount` | slither/printers/custom/interface_finder.py:70-89 | Every non-vendored enum or struct gets exactly as many rows as it has occurrences in its collection, whatever vendored declarations sit beside it. |
| `InterfaceFinderProperties.InterfaceEntriesCount` | slither/printers/custom/interface_finder.py:58-67 | Every non-vendored interface gets exactly as many 'Interface' rows as it has occurrences among the unit's contracts. |
| `InterfaceFinderProperties.ItemEntriesAllKept` | slither/printers/custom/interface_finder.py:70-89 | When nothing is vendored, every declaration gives exactly one row, at its own position. |
| `InterfaceFinderProperties.EntriesConcat` | slither/printers/custom/interface_finder.py:54-56 | The rows of two runs of units are the rows of the first run followed by those of the second, so the list is never reset. |
| `InterfaceFinderProperties.EntryOrigin` | slither/printers/custom/interface_finder.py:56-89 | Every row comes from one of the units and is not vendored. Its type matches where it came from: an interface contract, a top-level enum or a top-level struct. |
| `InterfaceFinderProperties.VendoredNeverListed` | slither/printers/custom/interface_finder.py:19-21 | No row is ever a vendored declaration. |
| `InterfaceFinderProperties.NonInterfaceNeverListed` | slither/printers/custom/interface_finder.py:59 | A declaration whose contracts are never flagged `is_interface` has no 'Interface' row. |
| `InterfaceFinderProperties.ScenarioDuplicatePragma` | slither/printers/custom/interface_finder.py:28-34 | If an interface's scope declares "^0.8.0" twice, its range is exactly "^0.8.0". |
| `InterfaceFinderProperties.ScenarioDuplicatePragmaListed` | slither/printers/custom/interface_finder.py:58-67 | An interface whose file name does not contain `node_modules`, in a scope that declares "^0.8.0" twice, is listed once, as 'Interface'. |
| `InterfaceFinderProperties.ScenarioNoMatchingPragma` | slither/printers/custom/interface_finder.py:29-36 | A struct whose scope has only a non-version pragma, while another scope has a version pragma, gets "No version specified". |
| `InterfaceFinderProperties.ScenarioVendored` | slither/printers/custom/interface_finder.py:19-21 | An interface under `node_modules/` gives no row, whatever its pragmas. |
| `InterfaceFinderProperties.ScenarioNoSourceMapping` | slither/printers/custom/interface_finder.py:17-39 | An enum without a source mapping, in a scope that declares "0.7.6", is listed with file "Unknown" and the sentinel range. |

## Left out

- Output: the text of a non-empty report is modelled as the summary line only. The rendering `str(table)` that the source appends to it (line 107) is table formatting and is left out. The table itself is kept as a header and a sequence of 4-tuples.
- `self.info` logging, `generate_output` and `add_pretty_table` are output plumbing. The tables they receive are modelled as the `tables` field of `Report`. The `AbstractPrinter` base class is not part of this model.
- The iteration order of Python's `set(...)` is not modelled. The resolver may list the distinct versions in any order, so two runs are not claimed to give the same order within a cell that holds several versions.
- `source_mapping.filename` and its `.relative` form are not computed. They are given as the two fields of `Path`.
- Version expressions are opaque strings, compared only for equality.
- Contracts that are not interfaces, libraries, events and custom errors are not listed by this printer, and the model does not add them.
