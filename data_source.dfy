/**
 * `StructuredTableDataSource`: the layout it was built for, the two registries it owns
 * and mutates, and the list widget's data-source callbacks answered from them.
 */
module DataSource {
  import opened Wrappers
  import opened Addressing
  import opened Registry
  import Maps

  /** What the cell request hands back: the template asked for, the cell's type, the action run on it. */
  datatype Cell = Cell(reuseIdentifier: string, cellType: CellType, configuredBy: Option<ActionId>)

  class StructuredTableDataSource {
    /** The sections of the layout type, fixed at construction. */
    const structure: seq<Section>
    var configurationRegistry: map<Key, Entry>
    var reuseIdentifierRegistry: map<string, string>

    /** Both registries start empty. */
    constructor (structure: seq<Section>)
      ensures this.structure == structure
      ensures configurationRegistry == map[] && reuseIdentifierRegistry == map[]
    {
      this.structure := structure;
      configurationRegistry := map[];
      reuseIdentifierRegistry := map[];
    }

    /**
     * `register(_:configuration:for:)` with an optional row: stores the configuration under
     * (cell type, row identifier or wildcard), replacing what was there. The target is alive
     * when it is passed in.
     */
    method Register(target: TargetId, configuration: ActionId, cellType: CellType, row: Option<Row>)
      modifies this
      ensures configurationRegistry ==
        Maps.Assign(old(configurationRegistry), KeyFor(cellType, row), Entry(target, configuration, true))
      ensures reuseIdentifierRegistry == old(reuseIdentifierRegistry)
      ensures row.Some? ==> forall t: TableIndex :: t.row.Identifier() == row.value.Identifier() ==>
        Configure(configurationRegistry, cellType, t) == Some(configuration)
      ensures row.None? ==> forall t: TableIndex :: Key(cellType, t.row.Identifier()) !in old(configurationRegistry) ==>
        Configure(configurationRegistry, cellType, t) == Some(configuration)
    {
      var key := KeyFor(cellType, row);
      configurationRegistry := configurationRegistry[key := Entry(target, configuration, true)];
    }

    /** `register(_:configuration:for:)` with a list of rows: one registration per row, in order. */
    method RegisterRows(target: TargetId, configuration: ActionId, cellType: CellType, rows: seq<Row>)
      modifies this
      ensures configurationRegistry ==
        Maps.AssignAll(old(configurationRegistry), ConfigurationKeys(cellType, rows), Entry(target, configuration, true))
      ensures reuseIdentifierRegistry == old(reuseIdentifierRegistry)
    {
      var entry := Entry(target, configuration, true);
      for i := 0 to |rows|
        invariant configurationRegistry ==
          Maps.AssignAll(old(configurationRegistry), ConfigurationKeys(cellType, rows[..i]), entry)
        invariant reuseIdentifierRegistry == old(reuseIdentifierRegistry)
      {
        Register(target, configuration, cellType, Some(rows[i]));
        ConfigurationKeysSnoc(cellType, rows, i);
        Maps.AssignAllSnoc(old(configurationRegistry), ConfigurationKeys(cellType, rows[..i]),
                           KeyFor(cellType, Some(rows[i])), entry);
      }
      assert rows[..|rows|] == rows;
    }

    /** `unregister(configuration:for:)`: removes the entry at (cell type, row identifier or wildcard). */
    method Unregister(cellType: CellType, row: Option<Row>)
      modifies this
      ensures configurationRegistry == Maps.Remove(old(configurationRegistry), KeyFor(cellType, row))
      ensures reuseIdentifierRegistry == old(reuseIdentifierRegistry)
    {
      configurationRegistry := configurationRegistry - {KeyFor(cellType, row)};
    }

    /** `register(reuseIdentifier:for:)` with one row: last write wins for the row's identifier. */
    method RegisterReuseIdentifier(reuseIdentifier: string, row: Row)
      modifies this
      ensures reuseIdentifierRegistry == Maps.Assign(old(reuseIdentifierRegistry), row.Identifier(), reuseIdentifier)
      ensures configurationRegistry == old(configurationRegistry)
      ensures ReuseIdentifier(reuseIdentifierRegistry, row) == reuseIdentifier
    {
      reuseIdentifierRegistry := reuseIdentifierRegistry[row.Identifier() := reuseIdentifier];
    }

    /** `register(reuseIdentifier:for:)` with a list of rows: one registration per row, in order. */
    method RegisterReuseIdentifierRows(reuseIdentifier: string, rows: seq<Row>)
      modifies this
      ensures reuseIdentifierRegistry == Maps.AssignAll(old(reuseIdentifierRegistry), Identifiers(rows), reuseIdentifier)
      ensures configurationRegistry == old(configurationRegistry)
      ensures forall i :: 0 <= i < |rows| ==> ReuseIdentifier(reuseIdentifierRegistry, rows[i]) == reuseIdentifier
    {
      for i := 0 to |rows|
        invariant reuseIdentifierRegistry ==
          Maps.AssignAll(old(reuseIdentifierRegistry), Identifiers(rows[..i]), reuseIdentifier)
        invariant configurationRegistry == old(configurationRegistry)
      {
        RegisterReuseIdentifier(reuseIdentifier, rows[i]);
        assert Identifiers(rows[..i + 1]) == Identifiers(rows[..i]) + [rows[i].Identifier()];
        Maps.AssignAllSnoc(old(reuseIdentifierRegistry), Identifiers(rows[..i]), rows[i].Identifier(), reuseIdentifier);
      }
      assert rows[..|rows|] == rows;
    }

    /** `unregisterReuseIdentifier(for:)`: the row falls back to its own identifier. */
    method UnregisterReuseIdentifier(row: Row)
      modifies this
      ensures reuseIdentifierRegistry == Maps.Remove(old(reuseIdentifierRegistry), row.Identifier())
      ensures configurationRegistry == old(configurationRegistry)
      ensures ReuseIdentifier(reuseIdentifierRegistry, row) == row.Identifier()
    {
      reuseIdentifierRegistry := reuseIdentifierRegistry - {row.Identifier()};
    }

    /** `unregister()`: empties both registries, so nothing is configured and nothing is overridden. */
    method UnregisterAll()
      modifies this
      ensures configurationRegistry == map[] && reuseIdentifierRegistry == map[]
      ensures forall c, t :: Configure(configurationRegistry, c, t) == None
      ensures forall row :: ReuseIdentifier(reuseIdentifierRegistry, row) == row.Identifier()
    {
      configurationRegistry := map[];
      reuseIdentifierRegistry := map[];
    }

    /**
     * The weak references to `target` become `nil` when it is deallocated. This is not a
     * call of the data source; it is what the runtime does to the entries it stores.
     */
    method TargetDeallocated(target: TargetId)
      modifies this
      ensures configurationRegistry == Released(old(configurationRegistry), target)
      ensures reuseIdentifierRegistry == old(reuseIdentifierRegistry)
    {
      configurationRegistry := Released(configurationRegistry, target);
    }

    /** `numberOfSections(in:)`. */
    function NumberOfSections(): (n: nat)
      ensures n == |structure|
    {
      |structure|
    }

    /** `tableView(_:numberOfRowsInSection:)`; an out-of-range section traps. */
    function NumberOfRowsInSection(index: int): (n: nat)
      requires 0 <= index < |structure|
      ensures n == |structure[index].rows|
    {
      |structure[index].rows|
    }

    /** `tableView(_:titleForHeaderInSection:)`: the title exactly when the header flag holds. */
    function TitleForHeaderInSection(index: int): (title: Option<string>)
      requires 0 <= index < |structure|
      ensures title.Some? <==> structure[index].ShowHeaderTitle(|structure|)
      ensures title.Some? ==> title.value == structure[index].title
    {
      var section := structure[index];
      if section.ShowHeaderTitle(|structure|) then Some(section.title) else None
    }

    /** `tableView(_:titleForFooterInSection:)`: the title exactly when the footer flag holds. */
    function TitleForFooterInSection(index: int): (title: Option<string>)
      requires 0 <= index < |structure|
      ensures title.Some? <==> structure[index].ShowFooterTitle()
      ensures title.Some? ==> title.value == structure[index].title
    {
      var section := structure[index];
      if section.ShowFooterTitle() then Some(section.title) else None
    }

    /**
     * `tableView(_:cellForRowAt:)`: resolve the coordinate, pick the template identifier,
     * take a cell of that template from the widget's pool (`dequeue`, the host's side), and
     * run the configuration that applies to its type at that position.
     */
    function CellForRowAt(indexPath: IndexPath, dequeue: string -> CellType): (cell: Cell)
      requires InBounds(structure, indexPath)
      reads this
      ensures cell.reuseIdentifier == ReuseIdentifier(reuseIdentifierRegistry, structure[indexPath.section].rows[indexPath.item])
      ensures cell.cellType == dequeue(cell.reuseIdentifier)
      ensures cell.configuredBy == Configure(configurationRegistry, cell.cellType, TableIndexAt(structure, indexPath))
    {
      var tableIndex := TableIndexAt(structure, indexPath);
      var identifier := ReuseIdentifier(reuseIdentifierRegistry, tableIndex.row);
      var cellType := dequeue(identifier);
      Cell(identifier, cellType, Configure(configurationRegistry, cellType, tableIndex))
    }
  }

  /** The coordinates the widget may ask for, from the counts reported, are exactly the in-bounds ones. */
  lemma CoordinateSpaceMatchesCounts(ds: StructuredTableDataSource, p: IndexPath)
    ensures InBounds(ds.structure, p) <==>
      0 <= p.section < ds.NumberOfSections() && 0 <= p.item < ds.NumberOfRowsInSection(p.section)
  {
  }

  /** With the default flags: headers appear exactly when there are several sections, footers never. */
  lemma DefaultTitles(ds: StructuredTableDataSource, index: int)
    requires 0 <= index < |ds.structure|
    requires ds.structure[index].headerOverride.None? && ds.structure[index].footerOverride.None?
    ensures ds.TitleForHeaderInSection(index) == (if |ds.structure| > 1 then Some(ds.structure[index].title) else None)
    ensures ds.TitleForFooterInSection(index) == None
  {
  }

  /** The footer title is absent unless a section sets its footer flag. */
  lemma FooterNeedsOverride(ds: StructuredTableDataSource, index: int)
    requires 0 <= index < |ds.structure|
    requires ds.structure[index].footerOverride != Some(true)
    ensures ds.TitleForFooterInSection(index) == None
  {
  }

  /** Overriding the footer flag to true shows the section's title as its footer. */
  lemma FooterOverrideShowsTitle(ds: StructuredTableDataSource, index: int)
    requires 0 <= index < |ds.structure|
    requires ds.structure[index].footerOverride == Some(true)
    ensures ds.TitleForFooterInSection(index) == Some(ds.structure[index].title)
  {
  }

  /** Registering a configuration for a list of rows stores it for every listed row and only there. */
  lemma RegisterRowsEffect(registry: map<Key, Entry>, cellType: CellType, rows: seq<Row>,
                                              entry: Entry, k: Key)
    ensures var r := Maps.AssignAll(registry, ConfigurationKeys(cellType, rows), entry);
            && (forall i :: 0 <= i < |rows| ==> r[KeyFor(cellType, Some(rows[i]))] == entry)
            && (k.cellType != cellType ==> (k in r <==> k in registry) && (k in registry ==> r[k] == registry[k]))
  {
  }

  /** An empty row list registers nothing, not even the wildcard. */
  lemma RegisterNoRows(registry: map<Key, Entry>, cellType: CellType, entry: Entry)
    ensures Maps.AssignAll(registry, ConfigurationKeys(cellType, []), entry) == registry
  {
  }
}
