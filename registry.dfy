/**
 * The two registries of the data source as values: the configuration registry keyed by
 * (cell type, row identifier) with `""` as the wildcard, and the reuse-identifier registry
 * keyed by row identifier. Resolution only reads them.
 */
module Registry {
  import opened Wrappers
  import opened Addressing
  import Maps

  /** A cell class, identified by its type identity. */
  type CellType = nat
  /** A configuration function, as an opaque name. */
  type ActionId = nat
  /** The object a configuration was registered for. */
  type TargetId = nat

  /** The identifier that stands for "any row". */
  const Wildcard: string := ""

  datatype Key = Key(cellType: CellType, identifier: string)

  /**
   * A stored configuration: the weakly held target, the action to run on it, and whether
   * the target is still alive (a weak reference that has not become `nil`).
   */
  datatype Entry = Entry(target: TargetId, action: ActionId, targetAlive: bool)

  /** The key a registration for `row?` uses: the row's identifier, or the wildcard. */
  function KeyFor(cellType: CellType, row: Option<Row>): (k: Key)
    ensures k.cellType == cellType
    ensures row.None? ==> k.identifier == Wildcard
    ensures row.Some? ==> k.identifier == row.value.Identifier()
  {
    Key(cellType, if row.Some? then row.value.Identifier() else Wildcard)
  }

  /** The keys a registration for a list of rows uses, in order. */
  function ConfigurationKeys(cellType: CellType, rows: seq<Row>): (ks: seq<Key>)
    ensures |ks| == |rows|
    ensures forall i :: 0 <= i < |rows| ==> ks[i] == KeyFor(cellType, Some(rows[i]))
  {
    seq(|rows|, i requires 0 <= i < |rows| => KeyFor(cellType, Some(rows[i])))
  }

  /** One more row adds its key at the end. */
  lemma ConfigurationKeysSnoc(cellType: CellType, rows: seq<Row>, i: nat)
    requires i < |rows|
    ensures ConfigurationKeys(cellType, rows[..i + 1])
         == ConfigurationKeys(cellType, rows[..i]) + [KeyFor(cellType, Some(rows[i]))]
  {
  }

  /** The reuse-registry keys of a list of rows, in order. */
  function Identifiers(rows: seq<Row>): (ids: seq<string>)
    ensures |ids| == |rows|
    ensures forall i :: 0 <= i < |rows| ==> ids[i] == rows[i].Identifier()
  {
    seq(|rows|, i requires 0 <= i < |rows| => rows[i].Identifier())
  }

  /** The entry `configure` picks: the exact key if present, else the wildcard key, else none. */
  function Resolve(registry: map<Key, Entry>, cellType: CellType, identifier: string): (r: Option<Entry>)
    ensures r.Some? ==> r.value in registry.Values
    ensures r.None? <==> Key(cellType, identifier) !in registry && Key(cellType, Wildcard) !in registry
    ensures Key(cellType, identifier) in registry ==> r == Some(registry[Key(cellType, identifier)])
    ensures Key(cellType, identifier) !in registry && Key(cellType, Wildcard) in registry ==>
      r == Some(registry[Key(cellType, Wildcard)])
  {
    var key := Key(cellType, identifier);
    if key in registry then Some(registry[key])
    else
      var defaultKey := Key(cellType, Wildcard);
      if defaultKey in registry then Some(registry[defaultKey]) else None
  }

  /** Running a stored entry: the action runs only while its target is alive. */
  function Invoke(entry: Entry): (r: Option<ActionId>)
    ensures r.Some? <==> entry.targetAlive
    ensures r.Some? ==> r.value == entry.action
  {
    if entry.targetAlive then Some(entry.action) else None
  }

  /** `configure(cell:forRowAt:)`: the action it runs for a cell of `cellType` at `tableIndex`, if any. */
  function Configure(registry: map<Key, Entry>, cellType: CellType, tableIndex: TableIndex): (r: Option<ActionId>)
    ensures r.Some? ==> exists e :: e in registry.Values && e.targetAlive && e.action == r.value
  {
    match Resolve(registry, cellType, tableIndex.row.Identifier())
    case Some(entry) => Invoke(entry)
    case None => None
  }

  /** The reuse identifier of a row: the registered override, or the row's own identifier. */
  function ReuseIdentifier(registry: map<string, string>, row: Row): (id: string)
    ensures row.Identifier() in registry ==> id == registry[row.Identifier()]
    ensures row.Identifier() !in registry ==> id == row.Identifier()
    ensures id == row.Identifier() || id in registry.Values
  {
    if row.Identifier() in registry then registry[row.Identifier()] else row.Identifier()
  }

  /** What deallocating `target` does to the registry: every entry holding it weakly goes dead. */
  function Released(registry: map<Key, Entry>, target: TargetId): (r: map<Key, Entry>)
    ensures r.Keys == registry.Keys
    ensures forall k :: k in r && registry[k].target == target ==> !r[k].targetAlive
    ensures forall k :: k in r && registry[k].target != target ==> r[k] == registry[k]
    ensures forall k :: k in r ==> r[k].target == registry[k].target && r[k].action == registry[k].action
  {
    map k | k in registry ::
      if registry[k].target == target then registry[k].(targetAlive := false) else registry[k]
  }

  /** An exact (cell type, identifier) entry runs, and the wildcard entry is not consulted. */
  lemma ExactEntryWins(registry: map<Key, Entry>, cellType: CellType, t: TableIndex)
    requires Key(cellType, t.row.Identifier()) in registry
    ensures Configure(registry, cellType, t) == Invoke(registry[Key(cellType, t.row.Identifier())])
  {
  }

  /** Without an exact entry, the wildcard entry of the same cell type runs, if there is one. */
  lemma WildcardFallback(registry: map<Key, Entry>, cellType: CellType, t: TableIndex)
    requires Key(cellType, t.row.Identifier()) !in registry
    ensures Key(cellType, Wildcard) in registry ==>
      Configure(registry, cellType, t) == Invoke(registry[Key(cellType, Wildcard)])
    ensures Key(cellType, Wildcard) !in registry ==> Configure(registry, cellType, t) == None
  {
  }

  /** An exact entry whose target is gone blocks the wildcard: nothing runs at all. */
  lemma DeadExactEntryShadowsWildcard(registry: map<Key, Entry>, cellType: CellType, t: TableIndex)
    requires Key(cellType, t.row.Identifier()) in registry
    requires !registry[Key(cellType, t.row.Identifier())].targetAlive
    ensures Configure(registry, cellType, t) == None
  {
  }

  /** An action runs only if it was registered for exactly this cell type, for this row or for any row. */
  lemma ConfigureIsSound(registry: map<Key, Entry>, cellType: CellType, t: TableIndex, a: ActionId)
    requires Configure(registry, cellType, t) == Some(a)
    ensures exists k ::
              && k in registry && k.cellType == cellType
              && (k.identifier == t.row.Identifier() || k.identifier == Wildcard)
              && registry[k].targetAlive && registry[k].action == a
  {
  }

  /** Resolution looks at the row only through its identifier. */
  lemma ConfigureDependsOnlyOnIdentifier(registry: map<Key, Entry>, cellType: CellType,
                                         a: TableIndex, b: TableIndex)
    requires a.row.Identifier() == b.row.Identifier()
    ensures Configure(registry, cellType, a) == Configure(registry, cellType, b)
  {
  }

  /** With an empty registry, every `configure` is a no-op. */
  lemma ConfigureOnEmpty(cellType: CellType, t: TableIndex)
    ensures Configure(map[], cellType, t) == None
  {
  }

  /** After its target is released, the entry `configure` would pick performs no action. */
  lemma ReleasedTargetIsNoOp(registry: map<Key, Entry>, target: TargetId,
                                                cellType: CellType, t: TableIndex)
    requires Resolve(registry, cellType, t.row.Identifier()).Some?
    requires Resolve(registry, cellType, t.row.Identifier()).value.target == target
    ensures Configure(Released(registry, target), cellType, t) == None
  {
  }

  /** Registering twice under one key: only the second registration runs. */
  lemma LastRegistrationWins(registry: map<Key, Entry>, cellType: CellType, row: Option<Row>,
                             first: Entry, second: Entry)
    ensures Maps.Assign(Maps.Assign(registry, KeyFor(cellType, row), first), KeyFor(cellType, row), second)
         == Maps.Assign(registry, KeyFor(cellType, row), second)
  {
  }

  /**
   * A wildcard registration and a row-specific one for the same cell type: the row-specific
   * one runs at its row, the wildcard one at every row with no entry of its own.
   */
  lemma RowSpecificOverridesWildcard(registry: map<Key, Entry>, cellType: CellType, rowB: Row,
                                     wildcard: Entry, specific: Entry, at: TableIndex)
    requires wildcard.targetAlive && specific.targetAlive
    requires rowB.Identifier() != Wildcard
    ensures var r := Maps.Assign(Maps.Assign(registry, KeyFor(cellType, None), wildcard),
                                 KeyFor(cellType, Some(rowB)), specific);
            && (at.row.Identifier() == rowB.Identifier() ==>
                  Configure(r, cellType, at) == Some(specific.action))
            && (at.row.Identifier() != rowB.Identifier() && Key(cellType, at.row.Identifier()) !in registry ==>
                  Configure(r, cellType, at) == Some(wildcard.action))
  {
  }

  /** A reuse override is found again; removing it falls back to the row's own identifier. */
  lemma ReuseIdentifierRegisterUnregister(registry: map<string, string>, row: Row, other: Row, id: string)
    ensures ReuseIdentifier(Maps.Assign(registry, row.Identifier(), id), row) == id
    ensures ReuseIdentifier(Maps.Remove(registry, row.Identifier()), row) == row.Identifier()
    ensures other.Identifier() != row.Identifier() ==>
      ReuseIdentifier(Maps.Assign(registry, row.Identifier(), id), other) == ReuseIdentifier(registry, other)
      && ReuseIdentifier(Maps.Remove(registry, row.Identifier()), other) == ReuseIdentifier(registry, other)
  {
  }
}
