/**
 * The addressing model: a layout is a fixed, ordered list of sections, each with an
 * ordered list of rows. A `TableIndex` names one (row, section) pair and converts to
 * and from the flat (section, item) coordinate of the list widget.
 */
module Addressing {
  import opened Wrappers

  /**
   * One row case. `index` and `identifier` are protocol requirements with default
   * implementations: an override, when a layout supplies one, replaces the default.
   * `name` stands for the reflected case name.
   */
  datatype Row = Row(rawValue: int, indexOverride: Option<int>, name: string,
                     identifierOverride: Option<string>)
  {
    /** The row's ordinal: its raw value unless overridden. */
    function Index(): (i: int)
      ensures indexOverride.None? ==> i == rawValue
      ensures indexOverride.Some? ==> i == indexOverride.value
    {
      indexOverride.GetOr(rawValue)
    }

    /** The registry key of the row: its reflected case name unless overridden. */
    function Identifier(): (id: string)
      ensures identifierOverride.None? ==> id == name
      ensures identifierOverride.Some? ==> id == identifierOverride.value
    {
      identifierOverride.GetOr(name)
    }
  }

  /**
   * One section case. `title` stands for the derived display title; the header and
   * footer visibility flags are overridable defaults.
   */
  datatype Section = Section(rawValue: int, indexOverride: Option<int>, title: string,
                             rows: seq<Row>, headerOverride: Option<bool>,
                             footerOverride: Option<bool>)
  {
    /** The section's ordinal: its raw value unless overridden. */
    function Index(): (i: int)
      ensures indexOverride.None? ==> i == rawValue
      ensures indexOverride.Some? ==> i == indexOverride.value
    {
      indexOverride.GetOr(rawValue)
    }

    /** By default a header title is shown exactly when the layout has more than one section. */
    function ShowHeaderTitle(sectionCount: nat): (b: bool)
      ensures headerOverride.None? ==> (b <==> sectionCount > 1)
      ensures headerOverride.Some? ==> b == headerOverride.value
    {
      headerOverride.GetOr(sectionCount > 1)
    }

    /** By default no footer title is shown. */
    function ShowFooterTitle(): (b: bool)
      ensures b <==> footerOverride == Some(true)
    {
      footerOverride.GetOr(false)
    }
  }

  /** The flat coordinate of the list widget. */
  datatype IndexPath = IndexPath(section: int, item: int)

  /** A (row, section) pair naming one position of a layout. */
  datatype TableIndex = TableIndex(row: Row, section: Section)
  {
    /** The flat coordinate: the two ordinals. */
    function IndexPathOf(): (p: IndexPath)
      ensures p.section == section.Index() && p.item == row.Index()
      ensures section.indexOverride.None? && row.indexOverride.None? ==>
        p == IndexPath(section.rawValue, row.rawValue)
    {
      IndexPath(section.Index(), row.Index())
    }
  }

  /** `==` on `TableIndex`: compares the row ordinals and the section ordinals only. */
  function Equal(a: TableIndex, b: TableIndex): (r: bool)
    ensures r <==> a.IndexPathOf() == b.IndexPathOf()
  {
    a.row.Index() == b.row.Index() && a.section.Index() == b.section.Index()
  }

  /** The coordinate lies inside the layout: both subscripts of `tableIndex` are in range. */
  predicate InBounds(layout: seq<Section>, p: IndexPath) {
    0 <= p.section < |layout| && 0 <= p.item < |layout[p.section].rows|
  }

  /**
   * `tableIndex(_:)`: the section at the coordinate's section number and the row at its
   * item number. Out of range, the array subscripts trap, hence the precondition.
   */
  function TableIndexAt(layout: seq<Section>, p: IndexPath): (t: TableIndex)
    requires InBounds(layout, p)
    ensures t.section == layout[p.section]
    ensures t.row == layout[p.section].rows[p.item]
    ensures t.section in layout && t.row in t.section.rows
  {
    var section := layout[p.section];
    TableIndex(section.rows[p.item], section)
  }

  /**
   * Every ordinal equals its position: what `CaseIterable` enums with default `Int`
   * raw values and the default `index` give.
   */
  predicate WellIndexed(layout: seq<Section>) {
    forall s :: 0 <= s < |layout| ==>
      layout[s].Index() == s &&
      forall r :: 0 <= r < |layout[s].rows| ==> layout[s].rows[r].Index() == r
  }

  /** The table index names a position of the layout. */
  predicate Addresses(layout: seq<Section>, t: TableIndex) {
    exists s, r :: 0 <= s < |layout| && 0 <= r < |layout[s].rows| &&
      layout[s] == t.section && layout[s].rows[r] == t.row
  }

  /** Equality of table indexes is an equivalence relation coarser than identity. */
  lemma EqualIsEquivalence(a: TableIndex, b: TableIndex, c: TableIndex)
    ensures Equal(a, a)
    ensures Equal(a, b) ==> Equal(b, a)
    ensures Equal(a, b) && Equal(b, c) ==> Equal(a, c)
    ensures a == b ==> Equal(a, b)
  {
  }

  /** Equality does not look at names, titles, identifiers or rows: only at the two ordinals. */
  lemma EqualIgnoresEverythingElse(a: TableIndex, row: Row, section: Section)
    requires row.Index() == a.row.Index() && section.Index() == a.section.Index()
    ensures Equal(a, TableIndex(row, section))
  {
  }

  /** In a well-indexed layout, `tableIndex(p).indexPath == p`. */
  lemma IndexPathRoundTrip(layout: seq<Section>, p: IndexPath)
    requires WellIndexed(layout) && InBounds(layout, p)
    ensures TableIndexAt(layout, p).IndexPathOf() == p
  {
  }

  /** In a well-indexed layout, every table index of the layout is found again from its coordinate. */
  lemma TableIndexRoundTrip(layout: seq<Section>, t: TableIndex)
    requires WellIndexed(layout) && Addresses(layout, t)
    ensures InBounds(layout, t.IndexPathOf())
    ensures TableIndexAt(layout, t.IndexPathOf()) == t
  {
  }

  /** In a well-indexed layout two positions are `==` exactly when their coordinates are the same. */
  lemma EqualAtIffSameCoordinate(layout: seq<Section>, p: IndexPath, q: IndexPath)
    requires WellIndexed(layout) && InBounds(layout, p) && InBounds(layout, q)
    ensures Equal(TableIndexAt(layout, p), TableIndexAt(layout, q)) <==> p == q
  {
  }
}
