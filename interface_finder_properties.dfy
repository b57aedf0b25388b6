/**
 What the interface-finder printer promises, stated over the specification
 functions of the resolver and the collector: which pragmas reach a version
 range, that the range lists each version once, which declarations become
 rows and in which order, and a few concrete scenarios.
 */
module InterfaceFinderProperties {
  import opened Wrappers
  import opened Strings
  import opened InterfaceFinder

  // ---------------------------------------------------------------------
  // Resolver: scope matching and deduplication
  // ---------------------------------------------------------------------

  /** A version is collected exactly when some version pragma of the scope
      carries it; other pragmas never contribute. */
  lemma {:induction false} MatchingVersionsMembers(ps: seq<Pragma>, scope: ScopeId, v: string)
    ensures v in MatchingVersions(ps, scope) <==>
              exists i :: 0 <= i < |ps| && Matches(ps[i], scope) && ps[i].version == v
    decreases |ps|
  {
    if ps != [] {
      var init := ps[..|ps| - 1];
      MatchingVersionsMembers(init, scope, v);
      if v in MatchingVersions(init, scope) {
        var i :| 0 <= i < |init| && Matches(init[i], scope) && init[i].version == v;
        assert ps[i] == init[i];
      }
      if exists i :: 0 <= i < |ps| && Matches(ps[i], scope) && ps[i].version == v {
        var i :| 0 <= i < |ps| && Matches(ps[i], scope) && ps[i].version == v;
        if i < |init| {
          assert init[i] == ps[i];
        }
      }
    }
  }

  /** For an item with a source mapping, the versions of its range are
      exactly the versions of the version pragmas of its own scope. */
  lemma RangeVersionsExact(item: Item, unit: Unit, r: VersionRange, v: string)
    requires item.file.Some? && RangeOk(item, unit, r) && r.Versions?
    ensures v in r.exprs <==>
              exists i :: 0 <= i < |unit.pragmas| && Matches(unit.pragmas[i], item.scope) && unit.pragmas[i].version == v
  {
    MatchingVersionsMembers(unit.pragmas, item.scope, v);
    assert v in r.exprs <==> v in (set x | x in r.exprs);
    assert v in ScopedVersions(item, unit) <==> v in MatchingVersions(unit.pragmas, item.scope);
  }

  /** For an item with a source mapping, the range is the sentinel exactly
      when no pragma of the unit is a version pragma of the item's scope. */
  lemma SentinelIffNoMatchingPragma(item: Item, unit: Unit, r: VersionRange)
    requires item.file.Some? && RangeOk(item, unit, r)
    ensures r == NoVersionSpecified <==>
              forall i :: 0 <= i < |unit.pragmas| ==> !Matches(unit.pragmas[i], item.scope)
  {
    if exists i :: 0 <= i < |unit.pragmas| && Matches(unit.pragmas[i], item.scope) {
      var i :| 0 <= i < |unit.pragmas| && Matches(unit.pragmas[i], item.scope);
      MatchingVersionsMembers(unit.pragmas, item.scope, unit.pragmas[i].version);
      assert unit.pragmas[i].version in ScopedVersions(item, unit);
    } else if r.Versions? {
      var v :| v in ScopedVersions(item, unit);
      MatchingVersionsMembers(unit.pragmas, item.scope, v);
    }
  }

  /** Inserting a pragma that is not a version pragma of the item's scope,
      anywhere among the directives, leaves the item's versions unchanged. */
  lemma NonMatchingPragmaIgnored(item: Item, unit: Unit, p: Pragma, k: nat)
    requires k <= |unit.pragmas| && !Matches(p, item.scope)
    ensures MatchingVersions(unit.pragmas[..k] + [p] + unit.pragmas[k..], item.scope) == MatchingVersions(unit.pragmas, item.scope)
    ensures ScopedVersions(item, unit.(pragmas := unit.pragmas[..k] + [p] + unit.pragmas[k..])) == ScopedVersions(item, unit)
  {
    var ps := unit.pragmas;
    MatchingVersionsConcat(ps[..k] + [p], ps[k..], item.scope);
    MatchingVersionsConcat(ps[..k], [p], item.scope);
    MatchingVersionsConcat(ps[..k], ps[k..], item.scope);
    assert [p][..0] == [];
    assert ps[..k] + ps[k..] == ps;
  }

  /** The versions of two runs of pragmas are those of the first run
      followed by those of the second: the scan keeps directive order. */
  lemma {:induction false} MatchingVersionsConcat(ps: seq<Pragma>, qs: seq<Pragma>, scope: ScopeId)
    ensures MatchingVersions(ps + qs, scope) == MatchingVersions(ps, scope) + MatchingVersions(qs, scope)
    decreases |qs|
  {
    if qs == [] {
      assert ps + qs == ps;
    } else {
      var init := qs[..|qs| - 1];
      MatchingVersionsConcat(ps, init, scope);
      assert (ps + qs)[..|ps + qs| - 1] == ps + init;
      assert (ps + qs)[|ps + qs| - 1] == qs[|qs| - 1];
    }
  }

  /** A duplicate-free list holds each of its values exactly once. */
  lemma {:induction false} DistinctListedOnce(exprs: seq<string>, v: string)
    requires NoDuplicates(exprs) && v in exprs
    ensures multiset(exprs)[v] == 1
    decreases |exprs|
  {
    var rest := exprs[1..];
    assert exprs == [exprs[0]] + rest;
    assert NoDuplicates(rest) by {
      forall i, j | 0 <= i < j < |rest|
        ensures rest[i] != rest[j]
      {
        assert rest[i] == exprs[i + 1] && rest[j] == exprs[j + 1];
      }
    }
    if exprs[0] == v {
      assert v !in rest by {
        forall j | 0 <= j < |rest|
          ensures rest[j] != v
        {
          assert rest[j] == exprs[j + 1];
        }
      }
      assert multiset(rest)[v] == 0;
    } else {
      DistinctListedOnce(rest, v);
    }
  }

  /** A duplicate-free list is as long as the set of its values. */
  lemma {:induction false} DistinctCardinality(exprs: seq<string>)
    requires NoDuplicates(exprs)
    ensures |set x | x in exprs| == |exprs|
    decreases |exprs|
  {
    if exprs != [] {
      var rest := exprs[1..];
      assert NoDuplicates(rest) by {
        forall i, j | 0 <= i < j < |rest|
          ensures rest[i] != rest[j]
        {
          assert rest[i] == exprs[i + 1] && rest[j] == exprs[j + 1];
        }
      }
      DistinctCardinality(rest);
      assert exprs[0] !in rest by {
        forall j | 0 <= j < |rest|
          ensures rest[j] != exprs[0]
        {
          assert rest[j] == exprs[j + 1];
        }
      }
      assert (set x | x in exprs) == {exprs[0]} + (set x | x in rest) by {
        assert exprs == [exprs[0]] + rest;
      }
    }
  }

  /** A duplicate-free list whose values are the one value `v` is `[v]`. */
  lemma DistinctSingleton(exprs: seq<string>, v: string)
    requires NoDuplicates(exprs) && (set x | x in exprs) == {v}
    ensures exprs == [v]
  {
    DistinctCardinality(exprs);
    assert |exprs| == 1;
    assert exprs[0] in (set x | x in exprs);
  }

  /** Every version of a resolved range appears exactly once in it, the
      range is as long as the set of applying versions, and every one of
      them occurs in the rendered cell. */
  lemma RangeListsEachVersionOnce(item: Item, unit: Unit, r: VersionRange, v: string)
    requires RangeOk(item, unit, r) && v in ScopedVersions(item, unit)
    ensures r.Versions? && multiset(r.exprs)[v] == 1
    ensures |r.exprs| == |ScopedVersions(item, unit)|
    ensures Contains(RangeText(r), v)
  {
    DistinctCardinality(r.exprs);
    assert v in (set x | x in r.exprs);
    DistinctListedOnce(r.exprs, v);
    var k :| 0 <= k < |r.exprs| && r.exprs[k] == v;
    JoinContainsParts(r.exprs, ", ", k);
  }

  /** Without a source mapping the scan never runs: whatever the pragmas,
      the range is the sentinel and the file is "Unknown". */
  lemma NoSourceMappingIsSentinel(item: Item, unit: Unit, r: VersionRange)
    requires item.file.None? && RangeOk(item, unit, r)
    ensures r == NoVersionSpecified && RangeText(r) == "No version specified"
    ensures !IsVendored(item) && DisplayPath(item.file) == "Unknown"
  {
  }

  // ---------------------------------------------------------------------
  // Collector: which declarations become rows, and in which order
  // ---------------------------------------------------------------------

  /** The contract loop lists exactly the interfaces that are not vendored,
      each as an 'Interface' entry of its unit. */
  lemma {:induction false} InterfaceEntriesMembers(cs: seq<Contract>, unit: Unit, e: Entry)
    ensures e in InterfaceEntries(cs, unit) <==>
              exists c :: c in cs && c.isInterface && !IsVendored(c.decl) && e == Entry(c.decl, Interface, unit)
    decreases |cs|
  {
    if cs != [] {
      var init := cs[..|cs| - 1];
      InterfaceEntriesMembers(init, unit, e);
      assert cs == init + [cs[|cs| - 1]];
      if exists c :: c in cs && c.isInterface && !IsVendored(c.decl) && e == Entry(c.decl, Interface, unit) {
        var c :| c in cs && c.isInterface && !IsVendored(c.decl) && e == Entry(c.decl, Interface, unit);
        if c != cs[|cs| - 1] {
          assert c in init;
        }
      }
    }
  }

  /** The enum or struct loop lists exactly the declarations that are not
      vendored, each as an entry of the loop's kind. */
  lemma {:induction false} ItemEntriesMembers(xs: seq<Item>, kind: Kind, unit: Unit, e: Entry)
    ensures e in ItemEntries(xs, kind, unit) <==>
              exists x :: x in xs && !IsVendored(x) && e == Entry(x, kind, unit)
    decreases |xs|
  {
    if xs != [] {
      var init := xs[..|xs| - 1];
      ItemEntriesMembers(init, kind, unit, e);
      assert xs == init + [xs[|xs| - 1]];
      if exists x :: x in xs && !IsVendored(x) && e == Entry(x, kind, unit) {
        var x :| x in xs && !IsVendored(x) && e == Entry(x, kind, unit);
        if x != xs[|xs| - 1] {
          assert x in init;
        }
      }
    }
  }

  /** The entries of two runs of declarations are the entries of the first
      followed by those of the second: the loop keeps collection order. */
  lemma {:induction false} ItemEntriesConcat(xs: seq<Item>, ys: seq<Item>, kind: Kind, unit: Unit)
    ensures ItemEntries(xs + ys, kind, unit) == ItemEntries(xs, kind, unit) + ItemEntries(ys, kind, unit)
    decreases |ys|
  {
    if ys == [] {
      assert xs + ys == xs;
    } else {
      var init := ys[..|ys| - 1];
      ItemEntriesConcat(xs, init, kind, unit);
      assert (xs + ys)[..|xs + ys| - 1] == xs + init;
      assert (xs + ys)[|xs + ys| - 1] == ys[|ys| - 1];
    }
  }

  /** The entries of two runs of contracts are the entries of the first
      followed by those of the second: the contract loop keeps contract
      order. */
  lemma {:induction false} InterfaceEntriesConcat(cs: seq<Contract>, ds: seq<Contract>, unit: Unit)
    ensures InterfaceEntries(cs + ds, unit) == InterfaceEntries(cs, unit) + InterfaceEntries(ds, unit)
    decreases |ds|
  {
    if ds == [] {
      assert cs + ds == cs;
    } else {
      var init := ds[..|ds| - 1];
      InterfaceEntriesConcat(cs, init, unit);
      assert (cs + ds)[..|cs + ds| - 1] == cs + init;
      assert (cs + ds)[|cs + ds| - 1] == ds[|ds| - 1];
    }
  }

  /** Every enum or struct that is not vendored gets exactly as many entries
      as it has occurrences in its collection, vendored ones or not around
      it. */
  lemma {:induction false} ItemEntriesCount(xs: seq<Item>, kind: Kind, unit: Unit, x: Item)
    requires !IsVendored(x)
    ensures multiset(ItemEntries(xs, kind, unit))[Entry(x, kind, unit)] == multiset(xs)[x]
    decreases |xs|
  {
    if xs != [] {
      var init := xs[..|xs| - 1];
      var last := xs[|xs| - 1];
      ItemEntriesCount(init, kind, unit, x);
      var e := Entry(x, kind, unit);
      assert multiset(xs)[x] == multiset(init)[x] + (if last == x then 1 else 0) by {
        assert xs == init + [last];
      }
      assert multiset(ItemEntries(xs, kind, unit))[e] == multiset(ItemEntries(init, kind, unit))[e] + (if last == x then 1 else 0) by {
        var tail := if !IsVendored(last) then [Entry(last, kind, unit)] else [];
        assert ItemEntries(xs, kind, unit) == ItemEntries(init, kind, unit) + tail;
        assert multiset(ItemEntries(xs, kind, unit)) == multiset(ItemEntries(init, kind, unit)) + multiset(tail);
      }
    }
  }

  /** Every interface that is not vendored gets exactly as many 'Interface'
      entries as it has occurrences among the unit's contracts. */
  lemma {:induction false} InterfaceEntriesCount(cs: seq<Contract>, unit: Unit, c: Contract)
    requires c.isInterface && !IsVendored(c.decl)
    ensures multiset(InterfaceEntries(cs, unit))[Entry(c.decl, Interface, unit)] == multiset(cs)[c]
    decreases |cs|
  {
    if cs != [] {
      var init := cs[..|cs| - 1];
      var last := cs[|cs| - 1];
      InterfaceEntriesCount(init, unit, c);
      assert cs == init + [last];
      assert multiset(cs) == multiset(init) + multiset{last};
      var tail := if last.isInterface && !IsVendored(last.decl) then [Entry(last.decl, Interface, unit)] else [];
      assert InterfaceEntries(cs, unit) == InterfaceEntries(init, unit) + tail;
      assert multiset(InterfaceEntries(cs, unit)) == multiset(InterfaceEntries(init, unit)) + multiset(tail);
    }
  }

  /** When nothing is vendored, every declaration gives exactly one entry,
      at its own position. */
  lemma {:induction false} ItemEntriesAllKept(xs: seq<Item>, kind: Kind, unit: Unit)
    requires forall k :: 0 <= k < |xs| ==> !IsVendored(xs[k])
    ensures |ItemEntries(xs, kind, unit)| == |xs|
    ensures forall k :: 0 <= k < |xs| ==> ItemEntries(xs, kind, unit)[k] == Entry(xs[k], kind, unit)
    decreases |xs|
  {
    if xs != [] {
      var init := xs[..|xs| - 1];
      ItemEntriesAllKept(init, kind, unit);
    }
  }

  /** The entry blocks of a run of units laid end to end. */
  function Flatten(blocks: seq<seq<Entry>>): seq<Entry>
    decreases |blocks|
  {
    if blocks == [] then [] else Flatten(blocks[..|blocks| - 1]) + blocks[|blocks| - 1]
  }

  /** The entries of each unit of a run, unit by unit. */
  function UnitBlocks(units: seq<Unit>): seq<seq<Entry>>
  {
    seq(|units|, i requires 0 <= i < |units| => UnitEntries(units[i]))
  }

  /** Laying out two runs of blocks is laying out each and joining them. */
  lemma {:induction false} FlattenConcat(a: seq<seq<Entry>>, b: seq<seq<Entry>>)
    ensures Flatten(a + b) == Flatten(a) + Flatten(b)
    decreases |b|
  {
    if b == [] {
      assert a + b == a;
    } else {
      var init := b[..|b| - 1];
      FlattenConcat(a, init);
      assert (a + b)[..|a + b| - 1] == a + init;
      assert (a + b)[|a + b| - 1] == b[|b| - 1];
    }
  }

  /** The entries of a run are its unit blocks laid end to end. */
  lemma {:induction false} EntriesFlatten(units: seq<Unit>)
    ensures Entries(units) == Flatten(UnitBlocks(units))
    decreases |units|
  {
    if units != [] {
      var init := units[..|units| - 1];
      var block := UnitEntries(units[|units| - 1]);
      EntriesFlatten(init);
      assert Flatten(UnitBlocks(units)) == Flatten(UnitBlocks(init)) + block by {
        assert UnitBlocks(units)[..|units| - 1] == UnitBlocks(init);
        assert UnitBlocks(units)[|units| - 1] == block;
      }
    }
  }

  /** The rows of two runs of units are the rows of the first followed by
      those of the second: the list is shared across units, never reset. */
  lemma EntriesConcat(us: seq<Unit>, vs: seq<Unit>)
    ensures Entries(us + vs) == Entries(us) + Entries(vs)
  {
    EntriesFlatten(us);
    EntriesFlatten(vs);
    EntriesFlatten(us + vs);
    UnitBlocksConcat(us, vs);
    FlattenConcat(UnitBlocks(us), UnitBlocks(vs));
  }

  /** The blocks of two runs of units are the blocks of each, joined. */
  lemma UnitBlocksConcat(us: seq<Unit>, vs: seq<Unit>)
    ensures UnitBlocks(us + vs) == UnitBlocks(us) + UnitBlocks(vs)
  {
  }

  /** Every entry of a run comes from one of its units, is never vendored,
      and is an interface contract, a top-level enum or a top-level struct
      of that unit with the matching type. */
  lemma {:induction false} EntryOrigin(units: seq<Unit>, e: Entry)
    requires e in Entries(units)
    ensures e.unit in units && !IsVendored(e.item)
    ensures e.kind == Interface ==> exists c :: c in e.unit.contracts && c.isInterface && c.decl == e.item
    ensures e.kind == Enum ==> e.item in e.unit.enums
    ensures e.kind == Struct ==> e.item in e.unit.structs
    decreases |units|
  {
    var init := units[..|units| - 1];
    var u := units[|units| - 1];
    if e in Entries(init) {
      EntryOrigin(init, e);
      assert e.unit in units by {
        var i :| 0 <= i < |init| && init[i] == e.unit;
        assert units[i] == e.unit;
      }
    } else {
      assert e in UnitEntries(u);
      InterfaceEntriesMembers(u.contracts, u, e);
      ItemEntriesMembers(u.enums, Enum, u, e);
      ItemEntriesMembers(u.structs, Struct, u, e);
    }
  }

  /** A vendored declaration never gets a row. */
  lemma VendoredNeverListed(units: seq<Unit>, k: nat)
    requires k < |Entries(units)|
    ensures !IsVendored(Entries(units)[k].item)
  {
    EntryOrigin(units, Entries(units)[k]);
  }

  /** A contract that is not an interface never gets a row of its own: no
      'Interface' entry carries its declaration. */
  lemma NonInterfaceNeverListed(units: seq<Unit>, c: Contract)
    requires forall u, d :: u in units && d in u.contracts && d.decl == c.decl ==> !d.isInterface
    ensures forall e :: e in Entries(units) && e.kind == Interface ==> e.item != c.decl
  {
    forall e | e in Entries(units) && e.kind == Interface
      ensures e.item != c.decl
    {
      EntryOrigin(units, e);
    }
  }

  // ---------------------------------------------------------------------
  // Scenarios
  // ---------------------------------------------------------------------

  /** One interface whose scope declares "^0.8.0" twice: its range holds
      "^0.8.0" once. */
  lemma ScenarioDuplicatePragma(s: ScopeId, r: VersionRange)
    requires
      var item := Item("IToken", Some(Path("IToken.sol", "IToken.sol")), s);
      var p := Pragma(true, s, "^0.8.0");
      RangeOk(item, Unit([Contract(item, true)], [], [], [p, p]), r)
    ensures r == Versions(["^0.8.0"]) && RangeText(r) == "^0.8.0"
  {
    var item := Item("IToken", Some(Path("IToken.sol", "IToken.sol")), s);
    var p := Pragma(true, s, "^0.8.0");
    var unit := Unit([Contract(item, true)], [], [], [p, p]);
    MatchingTwice(p, s);
    assert ScopedVersions(item, unit) == {"^0.8.0"};
    DistinctSingleton(r.exprs, "^0.8.0");
  }

  /** A matching pragma given twice contributes its version twice. */
  lemma MatchingTwice(p: Pragma, scope: ScopeId)
    requires Matches(p, scope)
    ensures MatchingVersions([p, p], scope) == [p.version, p.version]
  {
    assert [p][..0] == [];
    assert MatchingVersions([p], scope) == [p.version];
    assert [p, p][..1] == [p];
  }

  /** An interface outside `node_modules` whose scope declares "^0.8.0"
      twice is listed once, as an 'Interface'. */
  lemma ScenarioDuplicatePragmaListed(s: ScopeId, file: Path)
    requires !Contains(file.text, VendoredMarker)
    ensures
      var item := Item("IToken", Some(file), s);
      var p := Pragma(true, s, "^0.8.0");
      var unit := Unit([Contract(item, true)], [], [], [p, p]);
      Entries([unit]) == [Entry(item, Interface, unit)]
  {
    var item := Item("IToken", Some(file), s);
    var p := Pragma(true, s, "^0.8.0");
    var unit := Unit([Contract(item, true)], [], [], [p, p]);
    assert InterfaceEntries([Contract(item, true)], unit) == [Entry(item, Interface, unit)] by {
      assert [Contract(item, true)][..0] == [];
    }
    assert Entries([unit]) == UnitEntries(unit) by {
      assert [unit][..0] == [];
    }
  }

  /** One struct whose scope has no version pragma, only a version pragma
      of another scope and a non-version pragma of its own: the sentinel. */
  lemma ScenarioNoMatchingPragma(s: ScopeId, other: ScopeId, r: VersionRange)
    requires s != other
    requires
      var item := Item("Position", Some(Path("Types.sol", "Types.sol")), s);
      RangeOk(item, Unit([], [], [item], [Pragma(true, other, "0.8.19"), Pragma(false, s, "abicoder v2")]), r)
    ensures RangeText(r) == "No version specified"
  {
    var item := Item("Position", Some(Path("Types.sol", "Types.sol")), s);
    var unit := Unit([], [], [item], [Pragma(true, other, "0.8.19"), Pragma(false, s, "abicoder v2")]);
    SentinelIffNoMatchingPragma(item, unit, r);
  }

  /** An interface under node_modules is skipped whatever the pragmas of its
      scope: the run lists nothing. */
  lemma ScenarioVendored(s: ScopeId)
    ensures
      var item := Item("IERC20", Some(Path("node_modules/lib/Foo.sol", "node_modules/lib/Foo.sol")), s);
      Entries([Unit([Contract(item, true)], [], [], [Pragma(true, s, "^0.8.0")])]) == []
  {
    var text := "node_modules/lib/Foo.sol";
    assert OccursAt(text, VendoredMarker, 0);
    var item := Item("IERC20", Some(Path(text, text)), s);
    var unit := Unit([Contract(item, true)], [], [], [Pragma(true, s, "^0.8.0")]);
    assert [Contract(item, true)][..0] == [];
    assert InterfaceEntries([Contract(item, true)], unit) == [];
    assert [unit][..0] == [];
  }

  /** A declaration without a source mapping in a scope that declares
      "0.7.6" is listed with file "Unknown" and the sentinel range: the
      guard on the file keeps the scan from running. */
  lemma ScenarioNoSourceMapping(s: ScopeId, r: VersionRange)
    requires RangeOk(Item("Color", None, s), Unit([], [Item("Color", None, s)], [], [Pragma(true, s, "0.7.6")]), r)
    ensures r == NoVersionSpecified
    ensures
      var item := Item("Color", None, s);
      var unit := Unit([], [item], [], [Pragma(true, s, "0.7.6")]);
      Entries([unit]) == [Entry(item, Enum, unit)] && DisplayPath(item.file) == "Unknown"
  {
    var item := Item("Color", None, s);
    var unit := Unit([], [item], [], [Pragma(true, s, "0.7.6")]);
    assert [item][..0] == [];
    assert ItemEntries([item], Enum, unit) == [Entry(item, Enum, unit)];
    assert UnitEntries(unit) == [Entry(item, Enum, unit)];
    assert [unit][..0] == [];
  }
}
