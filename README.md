# StructuredTableView registry and addressing, in Dafny

This project models the core of `StructuredTableDataSource`. That is the layer between a table layout described by enums and a list widget's data-source protocol. It has three parts:

- **Addressing.** A layout is a fixed, ordered list of sections, and each section has an ordered list of rows. A `TableIndex` names one (row, section) pair. `tableIndex(_:)` builds one from a flat (section, item) coordinate, and `indexPath` turns it back into the coordinate. Two table indexes are `==` when their two ordinals are equal.
- **Two registries owned by the data source.**
  - The configuration registry is keyed by (cell type, row identifier), with `""` as the wildcard. Each entry holds its target weakly.
  - The reuse-identifier registry is keyed by row identifier.
- **The data-source callbacks.** Section and row counts, header and footer titles, and the cell request. All of them are answered from the layout and the two registries.

Modules:

- `Wrappers`: `Option`, which stands for Swift's `T?`.
- `Maps`: dictionary assignment and removal, plus assigning one value to a list of keys in order.
- `Addressing`: `Row`, `Section`, `IndexPath`, `TableIndex`, `==`, `tableIndex`, and the round-trip lemmas.
  - A protocol requirement that has a default implementation (`index`, `identifier`, `showHeaderTitle`, `showFooterTitle`) is an `Option` override field. The default applies when that field is `None`.
- `Registry`: keys and entries; resolution with the wildcard fallback; invoking an entry; reuse-identifier lookup; the effect of a target being deallocated; and the precedence lemmas.
  - `configure` only reads the registry, so it is a function of the registry map.
- `DataSource`: class `StructuredTableDataSource`. The two registry fields are updated in place by the register and unregister methods. The data-source callbacks are functions that read the object.
- `PrimaryColor`: the demonstration screen, used as a concrete instance. It has two sections of three colours, one wildcard configuration and the `"label"` template for every row.

Modelling choices:

- Cell classes, configuration functions and target objects are opaque numbers (`CellType`, `ActionId`, `TargetId`).
- A weak reference is an explicit `targetAlive` flag on the entry.
  - `register` always stores a live entry, because the target is passed in as a strong argument.
  - Deallocation of the target is the method `TargetDeallocated` (function `Registry.Released`). It stands for the runtime setting the weak references to `nil`.
- The widget's cell pool (`dequeueReusableCell`) is a parameter `dequeue: string -> CellType`. It gives the class of the cell the pool returns for a template identifier.
- Cell types are matched by exact identity (`ObjectIdentifier`). A registration for a superclass does not apply to a subclass cell, and the model keeps this because keys compare type ids exactly.
- The round trip `tableIndex(p).indexPath == p` is proved under the hypothesis that every ordinal equals its position (`WellIndexed`). This is what `CaseIterable` enums with default `Int` raw values and the default `index` give.
  - The hypothesis is sufficient, not necessary. For example, a section with no rows may carry any ordinal without breaking the round trip.
  - The code itself does not guarantee the hypothesis. The round trip reads only the `index` properties (raw values matter only through the default `index`). It breaks in a layout where some row's `index` differs from its position, or where a section that has rows has an `index` that differs from its position.
- `unregister(configuration:for:)` never reads its closure argument. Only the cell type that the closure's type carries is kept, as the `cellType` parameter.

## Model

| member | source | states |
|---|---|---|
| Maps.Assign | StructuredTableDataSource.swift:115 | the assigned key holds the new value; every other key keeps its old value; the key set grows by that key only |
| Maps.Remove | StructuredTableDataSource.swift:126 | the key is absent afterwards; all other keys and values are unchanged |
| Maps.AssignAll | StructuredTableDataSource.swift:118-122 | after assigning a value to a list of keys in order, every listed key maps to that value, the key set is the old set plus the listed keys, and unlisted keys keep their values |
| Maps.AssignAllSnoc | StructuredTableDataSource.swift:119-121 | assigning a list and then one more key is the same as assigning the extended list (one loop step) |
| Addressing.Row.Index | StructuredTableDataSource.swift:61-69 | a row's ordinal is its raw value unless the layout overrides `index` |
| Addressing.Row.Identifier | StructuredTableDataSource.swift:64-71 | a row's identifier is its reflected case name unless the layout overrides `identifier` |
| Addressing.Section.Index | StructuredTableDataSource.swift:41 | a section's ordinal is its raw value unless the layout overrides `index` |
| Addressing.Section.ShowHeaderTitle | StructuredTableDataSource.swift:44 | without an override, the header title is shown exactly when the layout has more than one section |
| Addressing.Section.ShowFooterTitle | StructuredTableDataSource.swift:35-45 | the footer flag is true exactly when a layout overrides it to true; by default it is false |
| Addressing.TableIndex.IndexPathOf | StructuredTableDataSource.swift:19 | the index path's section is the section's ordinal and its item is the row's ordinal; for rows and sections with default `index` these are the raw values |
| Addressing.Equal | StructuredTableDataSource.swift:22-26 | `==` holds if and only if the two table indexes have the same index path |
| Addressing.TableIndexAt | StructuredTableDataSource.swift:53-57 | for an in-range coordinate, returns `sections[s]` together with `sections[s].rows[r]`; out-of-range coordinates are excluded because the subscripts trap |
| Addressing.EqualIsEquivalence | StructuredTableDataSource.swift:22-26 | `==` is reflexive, symmetric and transitive, and identical values are `==` |
| Addressing.EqualIgnoresEverythingElse | StructuredTableDataSource.swift:22-26 | any row and section with the same two ordinals give an equal table index, whatever their names, titles, identifiers or rows |
| Addressing.IndexPathRoundTrip | StructuredTableDataSource.swift:19 | in a well-indexed layout, `tableIndex(p).indexPath == p` for every in-range `p` |
| Addressing.TableIndexRoundTrip | StructuredTableDataSource.swift:53-57 | in a well-indexed layout, every table index of the layout has an in-range index path, and `tableIndex` of that path gives back the same table index |
| Addressing.EqualAtIffSameCoordinate | StructuredTableDataSource.swift:22-26 | in a well-indexed layout, the table indexes at two in-range coordinates are `==` exactly when the coordinates are the same |
| Registry.KeyFor | StructuredTableDataSource.swift:113 | the key (built the same way again at line 125) has the given cell type and, as identifier, the row's identifier, or `""` when no row is given |
| Registry.ConfigurationKeysSnoc | StructuredTableDataSource.swift:119-121 | registering for one more row adds that row's key at the end of the key list (one loop step) |
| Registry.Resolve | StructuredTableDataSource.swift:149-157 | the exact key's entry when present, otherwise the wildcard key's entry when present; nothing is chosen exactly when neither key is present |
| Registry.Invoke | StructuredTableDataSource.swift:98-102 | an entry runs its action if and only if its target is still alive |
| Registry.Configure | StructuredTableDataSource.swift:148-158 | any action that runs belongs to a stored entry whose target is alive |
| Registry.ReuseIdentifier | StructuredTableDataSource.swift:182 | the registered override for the row's identifier if there is one, otherwise the row's own identifier |
| Registry.Released | StructuredTableDataSource.swift:94-96 | deallocating a target kills every entry that holds it; all other entries, and all keys, are unchanged |
| Registry.ExactEntryWins | StructuredTableDataSource.swift:149-151 | when an exact (cell type, row identifier) entry exists, it is the one invoked and the wildcard is not consulted |
| Registry.WildcardFallback | StructuredTableDataSource.swift:152-157 | without an exact entry, the (cell type, `""`) entry runs if present; with neither, nothing runs |
| Registry.DeadExactEntryShadowsWildcard | StructuredTableDataSource.swift:149-157 | an exact entry whose target is gone still blocks the wildcard, so nothing runs |
| Registry.ConfigureIsSound | StructuredTableDataSource.swift:148-158 | an action runs only if it is stored, with a live target, under this exact cell type and either the row's identifier or the wildcard |
| Registry.ConfigureDependsOnlyOnIdentifier | StructuredTableDataSource.swift:149 | two positions whose rows have the same identifier resolve to the same action |
| Registry.ConfigureOnEmpty | StructuredTableDataSource.swift:143-158 | with an empty registry, every `configure` is a no-op |
| Registry.ReleasedTargetIsNoOp | StructuredTableDataSource.swift:98-102 | after the target of the entry `configure` would pick is deallocated, `configure` performs no action |
| Registry.LastRegistrationWins | StructuredTableDataSource.swift:112-116 | registering twice under the same key leaves only the second registration |
| Registry.RowSpecificOverridesWildcard | StructuredTableDataSource.swift:112-116 | after a wildcard and a row-specific registration, the row-specific action runs at its row, and the wildcard action runs at rows that have no entry of their own |
| Registry.ReuseIdentifierRegisterUnregister | StructuredTableDataSource.swift:129-141 | a registered reuse identifier is found again; after removal the row falls back to its own identifier; other rows' lookups are unaffected |
| DataSource.StructuredTableDataSource.constructor | StructuredTableDataSource.swift:105-110 | the layout is stored and both registries start empty |
| DataSource.StructuredTableDataSource.Register | StructuredTableDataSource.swift:112-116 | replaces the entry at (cell type, row identifier or `""`) with a live entry and changes nothing else; afterwards `configure` runs it at that row, or, for the wildcard, at every row without an exact entry |
| DataSource.StructuredTableDataSource.RegisterRows | StructuredTableDataSource.swift:118-122 | leaves the configuration registry exactly as registering each row in order would |
| DataSource.StructuredTableDataSource.Unregister | StructuredTableDataSource.swift:124-127 | removes exactly the key (cell type, row identifier or `""`), whatever it held |
| DataSource.StructuredTableDataSource.RegisterReuseIdentifier | StructuredTableDataSource.swift:129-131 | last write wins for the row's identifier; lookup for that row then returns the new identifier; the configuration registry is unchanged |
| DataSource.StructuredTableDataSource.RegisterReuseIdentifierRows | StructuredTableDataSource.swift:133-137 | leaves the reuse registry exactly as registering each row in order would, and every listed row then looks up to the given identifier |
| DataSource.StructuredTableDataSource.UnregisterReuseIdentifier | StructuredTableDataSource.swift:139-141 | removes exactly the row's reuse key; the row then falls back to its own identifier |
| DataSource.StructuredTableDataSource.UnregisterAll | StructuredTableDataSource.swift:143-146 | empties both registries, so every later `configure` is a no-op and every row uses its own identifier |
| DataSource.StructuredTableDataSource.TargetDeallocated | StructuredTableDataSource.swift:94-96 | the entries holding the deallocated target go dead; keys, actions and the reuse registry are unchanged |
| DataSource.StructuredTableDataSource.NumberOfSections | StructuredTableDataSource.swift:162-164 | the number of sections of the layout |
| DataSource.StructuredTableDataSource.NumberOfRowsInSection | StructuredTableDataSource.swift:166-168 | the number of rows of the section; an out-of-range section traps |
| DataSource.StructuredTableDataSource.TitleForHeaderInSection | StructuredTableDataSource.swift:170-173 | the section's title if and only if its header flag holds |
| DataSource.StructuredTableDataSource.TitleForFooterInSection | StructuredTableDataSource.swift:175-178 | the section's title if and only if its footer flag holds |
| DataSource.StructuredTableDataSource.CellForRowAt | StructuredTableDataSource.swift:180-186 | the template is the reuse override or the row identifier; the cell is the pool's cell for that template; the configuration run is the one `configure` resolves for that cell's type at `tableIndex(p)` |
| DataSource.CoordinateSpaceMatchesCounts | StructuredTableDataSource.swift:162-168 | a coordinate is inside the reported section and row counts exactly when `tableIndex` accepts it |
| DataSource.DefaultTitles | StructuredTableDataSource.swift:44-45 | with default flags, the header title appears exactly when there are several sections, and the footer title never appears |
| DataSource.FooterNeedsOverride | StructuredTableDataSource.swift:175-178 | the footer title is `nil` unless the section overrides the footer flag to true |
| DataSource.FooterOverrideShowsTitle | StructuredTableDataSource.swift:175-178 | a section that overrides the footer flag to true gets its title as footer title |
| DataSource.RegisterRowsEffect | StructuredTableDataSource.swift:118-122 | after registering for a list of rows, each listed row maps to the entry, and keys of other cell types are untouched |
| DataSource.RegisterNoRows | StructuredTableDataSource.swift:118-122 | registering for an empty row list stores nothing, not even a wildcard entry |
| PrimaryColor.AllRows | StructuredTableViewExample/StructuredTableViewExample/PrimaryColorDataSource.swift:22 | the flattened row list contains every row of every section, and nothing that is not a row of some section |
| PrimaryColor.MakeDataSource | StructuredTableViewExample/StructuredTableViewExample/PrimaryColorDataSource.swift:18-23 | after `init()`, the configuration registry holds exactly the wildcard label-cell entry, and every row of the layout looks up to `"label"` |
| PrimaryColor.EveryRowListed | StructuredTableViewExample/StructuredTableViewExample/PrimaryColorDataSource.swift:22 | registering `"label"` for `sections.flatMap({ $0.rows })` gives `"label"` to every row at every in-range coordinate of the layout |
| PrimaryColor.LayoutIsWellIndexed | StructuredTableViewExample/StructuredTableViewExample/PrimaryColorDataSource.swift:32-48 | the demonstration layout's ordinals equal their positions |
| PrimaryColor.OnlyYellowIsDark | StructuredTableViewExample/StructuredTableViewExample/PrimaryColorDataSource.swift:28 | of the six cells, exactly the yellow one at (1, 2) gets dark text |
| PrimaryColor.ScreenShape | StructuredTableViewExample/StructuredTableViewExample/PrimaryColorDataSource.swift:32-48 | 2 sections of 3 rows each; both header titles are shown and no footer title is |
| PrimaryColor.LabelTextColor | StructuredTableViewExample/StructuredTableViewExample/PrimaryColorDataSource.swift:28 | the text is dark grey exactly at ordinals (section 1, row 2), whatever row and section values the table index was built from |
| PrimaryColor.EveryCellIsALabel | StructuredTableViewExample/StructuredTableViewExample/PrimaryColorDataSource.swift:21-22 | every cell is requested with the `"label"` template; provided the pool hands back a label cell for `"label"` (a host-side assumption, not something the code decides), the wildcard label-cell configuration runs on it |

## Left out

- Cells from UIKit: `dequeueReusableCell`, `UITableViewCell` contents and the construction of `IndexPath`. A cell is represented only by its type id, and the pool is a parameter.
- The type-erased `ConfigurationFunction` and `unsafeBitCast`. An action is an opaque id, and the reinterpretation of the function signature is not modelled.
- Weak references and ARC. Liveness is an explicit flag, and deallocation is an explicit step (`TargetDeallocated`).
- String reflection (`"\(self)"`) and `.capitalized`. A section's `title` is a given string. A row's `name` field is the reflected case name `"\(self)"`, which is what the default `identifier` uses. It is not the overridable `name` property: in the code, overriding `name` alone does not change the identifier, and the model has no separate `name` override.
- The demonstration screen's colours, label text and background colour (UIColor), as well as the `deinit` prints and the view controller's outlet wiring. These are display details with no registry or addressing logic.
- Out-of-range section or coordinate arguments from the widget to `titleForHeaderInSection` (:171), `titleForFooterInSection` (:176), `cellForRowAt` (:181) and `numberOfRowsInSection` (:167) trap on an array subscript in the code. The model excludes them by `requires` instead, because the widget only asks for coordinates inside the counts reported (`DataSource.CoordinateSpaceMatchesCounts`).
- A layout that supplies its own `tableIndex(_:)` instead of the `TableSectionBase` default. Only the default is modelled.
- Overflow of Swift's `Int`. The code does no arithmetic on ordinals, so unbounded integers lose nothing.
