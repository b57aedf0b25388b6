/**
 The interface-finder printer: for every compilation unit it lists the
 interfaces, top-level enums and top-level structs, each with the Solidity
 version pragmas of the file scope it was declared in, and reports them as
 one table behind a "Found N item(s)" summary.

 The analyser's objects are given as read-only values: compilation units
 with their contracts, enums, structs and pragma directives.
 */
module InterfaceFinder {
  import opened Wrappers
  import opened Strings

  // ---------------------------------------------------------------------
  // Data model
  // ---------------------------------------------------------------------

  /** A file scope, compared by identity (an index into the analyser's
      arena of scopes), never by path. */
  datatype ScopeId = ScopeId(id: nat)

  /** A source file name: `text` is its `str(...)` form, in which the
      vendored marker is searched, and `relative` its relative form, shown
      in the table. */
  datatype Path = Path(text: string, relative: string)

  /** An interface, enum or struct declaration. `file` is `None` when the
      declaration has no source mapping. */
  datatype Item = Item(name: string, file: Option<Path>, scope: ScopeId)

  /** A contract-like declaration and its `is_interface` flag. */
  datatype Contract = Contract(decl: Item, isInterface: bool)

  /** A pragma directive: `is_solidity_version`, its scope and `version`. */
  datatype Pragma = Pragma(isSolidityVersion: bool, scope: ScopeId, version: string)

  /** A compilation unit: `contracts`, `enums_top_level`,
      `structures_top_level` and `pragma_directives`, each in its order. */
  datatype Unit = Unit(contracts: seq<Contract>, enums: seq<Item>, structs: seq<Item>, pragmas: seq<Pragma>)

  /** The `'type'` column of a row. */
  datatype Kind = Interface | Enum | Struct

  /** A version range: the sentinel, or the distinct version strings in the
      order in which the set of matching versions was iterated. */
  datatype VersionRange = NoVersionSpecified | Versions(exprs: seq<string>)

  /** What the resolver returns: the skip marker `(None, None)`, or the
      version range and the display file. */
  datatype Resolution = Skipped | Resolved(range: VersionRange, file: string)

  /** One entry of `items_found`. */
  datatype Row = Row(name: string, kind: Kind, range: VersionRange, file: string)

  /** One visited declaration, its row type and the unit that owns it. */
  datatype Entry = Entry(item: Item, kind: Kind, unit: Unit)

  /** A table row: name, type, file, pragma version. */
  type Cells = (string, string, string, string)

  datatype Table = Table(header: seq<string>, rows: seq<Cells>)

  datatype NamedTable = NamedTable(name: string, table: Table)

  /** The printer's output: the summary text and the attached tables. */
  datatype Report = Report(text: string, tables: seq<NamedTable>)

  const VendoredMarker := "node_modules"
  const NoVersionText := "No version specified"
  const UnknownFile := "Unknown"
  const NoneFoundText := "No interfaces, top-level enums, or structs found in the project.\n"
  const TableName := "Interfaces, Enums & Structs"
  const TableHeader := ["Name", "Type", "File", "Pragma Version"]

  function KindName(k: Kind): string
  {
    match k
    case Interface => "Interface"
    case Enum => "Enum"
    case Struct => "Struct"
  }

  /** The text of the version-range cell. */
  function RangeText(r: VersionRange): string
  {
    match r
    case NoVersionSpecified => NoVersionText
    case Versions(exprs) => Join(exprs, ", ")
  }

  /** The summary line of a non-empty report. */
  function FoundText(n: nat): string
  {
    "Found " + Decimal(n) + " item(s):\n\n"
  }

  predicate NoDuplicates(s: seq<string>)
  {
    forall i, j :: 0 <= i < j < |s| ==> s[i] != s[j]
  }

  // ---------------------------------------------------------------------
  // Specification of the resolver
  // ---------------------------------------------------------------------

  /** The declaration has a file whose name mentions `node_modules`. */
  predicate IsVendored(item: Item)
  {
    item.file.Some? && Contains(item.file.value.text, VendoredMarker)
  }

  /** The relative file name, or "Unknown" without a source mapping. */
  function DisplayPath(file: Option<Path>): string
  {
    if file.Some? then file.value.relative else UnknownFile
  }

  /** A pragma contributes to a scope: a version pragma of that scope. */
  predicate Matches(p: Pragma, scope: ScopeId)
  {
    p.isSolidityVersion && p.scope == scope
  }

  /** The versions of the matching pragmas, in directive order, with
      repetitions. */
  function MatchingVersions(ps: seq<Pragma>, scope: ScopeId): seq<string>
    decreases |ps|
  {
    if ps == [] then []
    else
      var last := ps[|ps| - 1];
      MatchingVersions(ps[..|ps| - 1], scope) + (if Matches(last, scope) then [last.version] else [])
  }

  /** The versions that apply to an item: none when it has no source
      mapping, since the scan only runs for an item with a file. */
  function ScopedVersions(item: Item, unit: Unit): set<string>
  {
    if item.file.Some? then set v | v in MatchingVersions(unit.pragmas, item.scope) else {}
  }

  /** `r` is a version range the resolver may produce for `item`: the
      sentinel exactly when no version applies, otherwise every applying
      version exactly once, in any order. */
  predicate RangeOk(item: Item, unit: Unit, r: VersionRange)
  {
    var expected := ScopedVersions(item, unit);
    match r
    case NoVersionSpecified => expected == {}
    case Versions(exprs) => expected != {} && NoDuplicates(exprs) && (set v | v in exprs) == expected
  }

  // ---------------------------------------------------------------------
  // The resolver
  // ---------------------------------------------------------------------

  /** Finds the version range and display file of one declaration; the
      iteration order of the set of versions is left to the choice in the
      second loop. */
  method ResolvePragmaVersion(item: Item, unit: Unit) returns (res: Resolution)
    ensures res.Skipped? <==> IsVendored(item)
    ensures res.Resolved? ==> res.file == DisplayPath(item.file) && RangeOk(item, unit, res.range)
    ensures item.file.None? ==> res == Resolved(NoVersionSpecified, UnknownFile)
  {
    if item.file.Some? && Contains(item.file.value.text, VendoredMarker) {
      return Skipped;
    }
    var pragmaVersions: seq<string> := [];
    if item.file.Some? {
      var fileScope := item.scope;
      for i := 0 to |unit.pragmas|
        invariant pragmaVersions == MatchingVersions(unit.pragmas[..i], fileScope)
      {
        var pragma := unit.pragmas[i];
        assert unit.pragmas[..i + 1][..i] == unit.pragmas[..i];
        if pragma.isSolidityVersion && pragma.scope == fileScope {
          pragmaVersions := pragmaVersions + [pragma.version];
        }
      }
      assert unit.pragmas[..|unit.pragmas|] == unit.pragmas;
    }
    var range: VersionRange;
    if pragmaVersions != [] {
      // ", ".join(set(pragma_versions)): iterate the set in some order
      var distinct := set v | v in pragmaVersions;
      var remaining := distinct;
      var exprs: seq<string> := [];
      while remaining != {}
        invariant remaining <= distinct
        invariant NoDuplicates(exprs)
        invariant forall v :: v in distinct <==> v in exprs || v in remaining
        invariant forall v :: v in exprs ==> v !in remaining
        decreases |remaining|
      {
        var v :| v in remaining;
        exprs := exprs + [v];
        remaining := remaining - {v};
      }
      assert (set v | v in exprs) == distinct;
      assert pragmaVersions[0] in distinct;
      range := Versions(exprs);
    } else {
      range := NoVersionSpecified;
    }
    var fileDisplay := if item.file.Some? then item.file.value.relative else UnknownFile;
    return Resolved(range, fileDisplay);
  }

  // ---------------------------------------------------------------------
  // Specification of the collector
  // ---------------------------------------------------------------------

  /** The entries the contract loop of one unit appends: the interfaces
      that are not vendored, in order. */
  function InterfaceEntries(cs: seq<Contract>, unit: Unit): seq<Entry>
    decreases |cs|
  {
    if cs == [] then []
    else
      var c := cs[|cs| - 1];
      InterfaceEntries(cs[..|cs| - 1], unit)
        + (if c.isInterface && !IsVendored(c.decl) then [Entry(c.decl, Interface, unit)] else [])
  }

  /** The entries the enum or struct loop of one unit appends: the
      declarations that are not vendored, in order. */
  function ItemEntries(xs: seq<Item>, kind: Kind, unit: Unit): seq<Entry>
    decreases |xs|
  {
    if xs == [] then []
    else
      var x := xs[|xs| - 1];
      ItemEntries(xs[..|xs| - 1], kind, unit) + (if !IsVendored(x) then [Entry(x, kind, unit)] else [])
  }

  /** The entries one unit contributes: interfaces, then enums, then structs. */
  function UnitEntries(unit: Unit): seq<Entry>
  {
    InterfaceEntries(unit.contracts, unit) + ItemEntries(unit.enums, Enum, unit) + ItemEntries(unit.structs, Struct, unit)
  }

  /** The entries of all units, in unit order, accumulated in one list. */
  function Entries(units: seq<Unit>): seq<Entry>
    decreases |units|
  {
    if units == [] then [] else Entries(units[..|units| - 1]) + UnitEntries(units[|units| - 1])
  }

  /** `r` is a row the collector may append for entry `e`. */
  predicate RowFor(e: Entry, r: Row)
  {
    && r.name == e.item.name
    && r.kind == e.kind
    && r.file == DisplayPath(e.item.file)
    && RangeOk(e.item, e.unit, r.range)
  }

  /** `rows` holds, position by position, a row for each of `entries`. */
  predicate RowsFor(entries: seq<Entry>, rows: seq<Row>)
  {
    |rows| == |entries| && forall k :: 0 <= k < |rows| ==> RowFor(entries[k], rows[k])
  }

  /** Appending a row for a new entry keeps the rows in step with the entries. */
  lemma RowsForAppend(entries: seq<Entry>, rows: seq<Row>, e: Entry, r: Row)
    requires RowsFor(entries, rows) && RowFor(e, r)
    ensures RowsFor(entries + [e], rows + [r])
  {
  }

  /** `cells` is a table row the printer may show for entry `e`. */
  ghost predicate CellsFor(e: Entry, cells: Cells)
  {
    && cells.0 == e.item.name
    && cells.1 == KindName(e.kind)
    && cells.2 == DisplayPath(e.item.file)
    && exists r :: RangeOk(e.item, e.unit, r) && cells.3 == RangeText(r)
  }

  /** The table row of one entry of `items_found`: name, type, file and
      version range. */
  function RowCells(r: Row): (cells: Cells)
  {
    (r.name, KindName(r.kind), r.file, RangeText(r.range))
  }

  /** The table row of a row appended for an entry shows that entry. */
  lemma RowCellsFor(e: Entry, r: Row)
    requires RowFor(e, r)
    ensures CellsFor(e, RowCells(r))
  {
  }

  /** The summary agrees with the table: no table and the "none found"
      text, or one non-empty table whose row count is the N of the text. */
  predicate SummaryAgrees(report: Report)
  {
    || (report.tables == [] && report.text == NoneFoundText)
    || (&& |report.tables| == 1
        && report.tables[0].name == TableName
        && report.tables[0].table.header == TableHeader
        && |report.tables[0].table.rows| > 0
        && report.text == FoundText(|report.tables[0].table.rows|))
  }

  // ---------------------------------------------------------------------
  // The collector and the report
  // ---------------------------------------------------------------------

  /** Builds `items_found` over all compilation units: the one list is
      extended unit after unit and never reset. */
  method CollectItems(units: seq<Unit>) returns (found: seq<Row>)
    ensures RowsFor(Entries(units), found)
  {
    found := [];
    for i := 0 to |units|
      invariant RowsFor(Entries(units[..i]), found)
    {
      assert units[..i + 1][..i] == units[..i];
      found := CollectUnitItems(units[i], found, Entries(units[..i]));
    }
    assert units[..|units|] == units;
  }

  /** The body of the per-unit loop: appends the rows of the unit's
      interfaces, then of its top-level enums, then of its top-level
      structs, to the rows `found` already holds for the entries `done`. */
  method CollectUnitItems(unit: Unit, found: seq<Row>, ghost done: seq<Entry>) returns (found': seq<Row>)
    requires RowsFor(done, found)
    ensures RowsFor(done + UnitEntries(unit), found')
    ensures |found| <= |found'| && found'[..|found|] == found
  {
    found' := CollectInterfaces(unit, found, done);
    ghost var afterInterfaces := done + InterfaceEntries(unit.contracts, unit);
    found' := CollectItemsOfKind(unit.enums, Enum, unit, found', afterInterfaces);
    ghost var afterEnums := afterInterfaces + ItemEntries(unit.enums, Enum, unit);
    found' := CollectItemsOfKind(unit.structs, Struct, unit, found', afterEnums);
    assert afterEnums + ItemEntries(unit.structs, Struct, unit) == done + UnitEntries(unit);
  }

  /** The contract loop of one unit: resolves each contract flagged
      `is_interface` and appends an 'Interface' row unless it was skipped. */
  method CollectInterfaces(unit: Unit, found: seq<Row>, ghost done: seq<Entry>) returns (found': seq<Row>)
    requires RowsFor(done, found)
    ensures RowsFor(done + InterfaceEntries(unit.contracts, unit), found')
    ensures |found| <= |found'| && found'[..|found|] == found
  {
    found' := found;
    ghost var expected := done;
    for j := 0 to |unit.contracts|
      invariant expected == done + InterfaceEntries(unit.contracts[..j], unit)
      invariant |found| <= |found'| && found'[..|found|] == found
      invariant RowsFor(expected, found')
    {
      var contract := unit.contracts[j];
      assert unit.contracts[..j + 1][..j] == unit.contracts[..j];
      if contract.isInterface {
        var res := ResolvePragmaVersion(contract.decl, unit);
        if res.Resolved? {
          RowsForAppend(expected, found', Entry(contract.decl, Interface, unit), Row(contract.decl.name, Interface, res.range, res.file));
          found' := found' + [Row(contract.decl.name, Interface, res.range, res.file)];
          expected := expected + [Entry(contract.decl, Interface, unit)];
        }
      }
    }
    assert unit.contracts[..|unit.contracts|] == unit.contracts;
  }

  /** The enum loop or the struct loop of one unit: resolves each
      declaration and appends a row of type `kind` unless it was skipped. */
  method CollectItemsOfKind(xs: seq<Item>, kind: Kind, unit: Unit, found: seq<Row>, ghost done: seq<Entry>) returns (found': seq<Row>)
    requires RowsFor(done, found)
    ensures RowsFor(done + ItemEntries(xs, kind, unit), found')
    ensures |found| <= |found'| && found'[..|found|] == found
  {
    found' := found;
    ghost var expected := done;
    for j := 0 to |xs|
      invariant expected == done + ItemEntries(xs[..j], kind, unit)
      invariant |found| <= |found'| && found'[..|found|] == found
      invariant RowsFor(expected, found')
    {
      var x := xs[j];
      assert xs[..j + 1][..j] == xs[..j];
      var res := ResolvePragmaVersion(x, unit);
      if res.Resolved? {
        RowsForAppend(expected, found', Entry(x, kind, unit), Row(x.name, kind, res.range, res.file));
        found' := found' + [Row(x.name, kind, res.range, res.file)];
        expected := expected + [Entry(x, kind, unit)];
      }
    }
    assert xs[..|xs|] == xs;
  }

  /** The printer's `output`: collects the rows, then emits the "none
      found" text alone, or the "Found N item(s)" text with one table of
      the rows in collection order. */
  method Output(units: seq<Unit>) returns (report: Report)
    ensures SummaryAgrees(report)
    ensures report.tables == [] <==> Entries(units) == []
    ensures report.tables != [] ==>
              && |report.tables[0].table.rows| == |Entries(units)|
              && forall k :: 0 <= k < |Entries(units)| ==> CellsFor(Entries(units)[k], report.tables[0].table.rows[k])
  {
    var found := CollectItems(units);
    if found == [] {
      return Report(NoneFoundText, []);
    }
    var text := FoundText(|found|);
    var rows: seq<Cells> := [];
    for k := 0 to |found|
      invariant |rows| == k
      invariant forall m :: 0 <= m < k ==> rows[m] == RowCells(found[m])
    {
      rows := rows + [RowCells(found[k])];
    }
    ghost var entries := Entries(units);
    forall k | 0 <= k < |entries|
      ensures CellsFor(entries[k], rows[k])
    {
      RowCellsFor(entries[k], found[k]);
    }
    return Report(text, [NamedTable(TableName, Table(TableHeader, rows))]);
  }
}
