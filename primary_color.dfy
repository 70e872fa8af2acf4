/**
 * The demonstration screen: two sections, additive (red, green, blue) and subtractive
 * (cyan, magenta, yellow), one wildcard configuration for the label cell and the "label"
 * template for every row. Used here as a concrete instance of the data source.
 */
module PrimaryColor {
  import opened Wrappers
  import opened Addressing
  import opened Registry
  import opened DataSource

  /** The label cell class. */
  const LabelCell: CellType := 1
  /** The data source object itself, the target of its own registration. */
  const Owner: TargetId := 0
  /** `configureLabelCell(cell:forRowAt:)`. */
  const ConfigureLabelCell: ActionId := 0

  function ColorRow(rawValue: int, name: string): Row {
    Row(rawValue, None, name, None)
  }

  const Additive: Section :=
    Section(0, None, "Additive", [ColorRow(0, "red"), ColorRow(1, "green"), ColorRow(2, "blue")], None, None)
  const Subtractive: Section :=
    Section(1, None, "Subtractive", [ColorRow(0, "cyan"), ColorRow(1, "magenta"), ColorRow(2, "yellow")], None, None)
  const Layout: seq<Section> := [Additive, Subtractive]

  /** `TableIndex(row: Section.Subtractive.yellow, section: Section.subtractive)`. */
  const YellowIndex: TableIndex := TableIndex(ColorRow(2, "yellow"), Subtractive)

  /** `sections.flatMap({ $0.rows })`: every row of every section, section by section. */
  function AllRows(layout: seq<Section>): (rows: seq<Row>)
    ensures forall s, r :: 0 <= s < |layout| && 0 <= r < |layout[s].rows| ==> layout[s].rows[r] in rows
    ensures forall row :: row in rows ==> exists s :: 0 <= s < |layout| && row in layout[s].rows
  {
    if layout == [] then [] else layout[0].rows + AllRows(layout[1..])
  }

  /** The two registrations of `init()`. */
  method MakeDataSource() returns (ds: StructuredTableDataSource)
    ensures fresh(ds) && ds.structure == Layout
    ensures ds.configurationRegistry == map[Key(LabelCell, Wildcard) := Entry(Owner, ConfigureLabelCell, true)]
    ensures forall p :: InBounds(Layout, p) ==>
      ReuseIdentifier(ds.reuseIdentifierRegistry, TableIndexAt(Layout, p).row) == "label"
  {
    ds := new StructuredTableDataSource(Layout);
    ds.Register(Owner, ConfigureLabelCell, LabelCell, None);
    ds.RegisterReuseIdentifierRows("label", AllRows(Layout));
    EveryRowListed(ds.reuseIdentifierRegistry);
  }

  /** A reuse registry that gives "label" to every listed row gives it to every row of the layout. */
  lemma EveryRowListed(registry: map<string, string>)
    requires forall i :: 0 <= i < |AllRows(Layout)| ==> ReuseIdentifier(registry, AllRows(Layout)[i]) == "label"
    ensures forall p :: InBounds(Layout, p) ==> ReuseIdentifier(registry, TableIndexAt(Layout, p).row) == "label"
  {
    var rows := AllRows(Layout);
    forall p | InBounds(Layout, p)
      ensures ReuseIdentifier(registry, TableIndexAt(Layout, p).row) == "label"
    {
      var i :| 0 <= i < |rows| && rows[i] == Layout[p.section].rows[p.item];
    }
  }

  datatype Color = DarkGray | White

  /** The text colour `configureLabelCell` chooses: dark grey on the yellow row only. */
  function LabelTextColor(t: TableIndex): (c: Color)
    ensures c == DarkGray <==> t.section.Index() == 1 && t.row.Index() == 2
  {
    if Equal(t, YellowIndex) then DarkGray else White
  }

  lemma LayoutIsWellIndexed()
    ensures WellIndexed(Layout)
  {
  }

  /** Of the six cells exactly one, the yellow one at (1, 2), gets dark text. */
  lemma OnlyYellowIsDark(p: IndexPath)
    requires InBounds(Layout, p)
    ensures LabelTextColor(TableIndexAt(Layout, p)) == DarkGray <==> p == IndexPath(1, 2)
  {
  }

  /** Two sections of three rows, both with header titles and no footer titles. */
  lemma ScreenShape(ds: StructuredTableDataSource)
    requires ds.structure == Layout
    ensures ds.NumberOfSections() == 2
    ensures ds.NumberOfRowsInSection(0) == 3 && ds.NumberOfRowsInSection(1) == 3
    ensures ds.TitleForHeaderInSection(0) == Some("Additive")
    ensures ds.TitleForHeaderInSection(1) == Some("Subtractive")
    ensures ds.TitleForFooterInSection(0) == None && ds.TitleForFooterInSection(1) == None
  {
  }

  /**
   * Every cell is requested with the "label" template and, when the pool hands back a label
   * cell for it, the wildcard configuration runs on it.
   */
  lemma EveryCellIsALabel(ds: StructuredTableDataSource, dequeue: string -> CellType, p: IndexPath)
    requires ds.structure == Layout
    requires ds.configurationRegistry == map[Key(LabelCell, Wildcard) := Entry(Owner, ConfigureLabelCell, true)]
    requires forall q :: InBounds(Layout, q) ==>
      ReuseIdentifier(ds.reuseIdentifierRegistry, TableIndexAt(Layout, q).row) == "label"
    requires dequeue("label") == LabelCell
    requires InBounds(Layout, p)
    ensures ds.CellForRowAt(p, dequeue) == Cell("label", LabelCell, Some(ConfigureLabelCell))
  {
  }
}
