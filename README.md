# Cell insertion and the editable's inner component, modelled in Dafny

This project models two pieces of a visual page builder in which a document (an
*editable*) is a tree of rows and cells:

- **The cell-insert command builder.** `insert(type)` takes an action type:
  one of six constants (above, below, left of, right of, inline left, inline
  right), or any other string. It combines the type with the item to insert,
  the hovered cell, a requested level and an optional batch of fresh ids to
  build an insert action. Next to an inline pair, the
  four non-inline kinds raise a level below 1 to 1. The builder returns a thunk.
  The thunk dispatches the action. If the item is new rather than moved, it then
  dispatches edit mode. Last, it schedules one focus on the inserted item.
- **The editable's inner component.** It asks for a fallback cell when the
  editable it shows exists and has no cells. It renders one child cell per cell
  id, in order. A selector reads the display mode from the store.

Files:

- `wrappers.dfy`: `Option`, used for every field or argument JavaScript may
  leave `undefined`.
- `redux.dfy`: `Store<A>`, the store seen only through what is sent to it. It
  keeps a log of dispatched actions and a queue of timer dispatches that have not
  fired yet.
- `cell_insert.dfy`: module `CellInsert`, which models
  `packages/core/src/actions/cell/insert.ts`.
- `editable_inner.dfy`: module `EditableInner`, which models
  `packages/core/src/components/Editable/Inner/index.tsx`.

JavaScript truthiness is written out. An optional string (`id`, `inline`,
`hasInlineNeighbour`) is truthy when it is present and not empty. An array
(`rows`) or an object (`levels`, `ids`) is truthy whenever it is present, even an
empty array. Default parameters and destructuring defaults (`level = 0`,
`cells = []`) apply only to a missing value, which is written `None`.

Two points about the factory's behaviour:

- Only ABOVE, BELOW, LEFT_OF and RIGHT_OF raise the level
  (`packages/core/src/actions/cell/insert.ts:51-68`). Every other type string,
  INLINE_LEFT and INLINE_RIGHT included, falls through to `default:` and keeps the
  requested level. `CellInsert.EffectiveLevel` and `CellInsert.ExportedPromotion`
  state this.
- The focus timer (`packages/core/src/actions/cell/insert.ts:90-92`) cannot be
  cancelled. It does not check that its target still exists. `CellInsert.RunInsert`
  only enqueues the focus.

The factory is keyed by its type string, as in the source. The exported
`insert` factory accepts any string, and the six exported specialisations
(`CellInsert.InsertKind`) pass one constant each.

## Model

| member | source | states |
|---|---|---|
| `CellInsert.TypeNamesDistinct` | packages/core/src/actions/cell/insert.ts:29-34 | the six action type constants are pairwise distinct, so each exported specialisation has its own type string |
| `CellInsert.EffectiveLevel` | packages/core/src/actions/cell/insert.ts:50-68 | the level is never below the requested one; for the types ABOVE, BELOW, LEFT_OF and RIGHT_OF, a hovered cell that is `inline` or `hasInlineNeighbour` with requested level < 1 gives exactly 1; in every other case, and always for INLINE_LEFT, INLINE_RIGHT and any other type string, it is the requested level |
| `CellInsert.ExportedPromotion` | packages/core/src/actions/cell/insert.ts:99-124 | of the six exported specialisations, exactly the four non-inline ones raise the level; the two inline ones keep the requested level whatever the inline flags |
| `CellInsert.Insert` | packages/core/src/actions/cell/insert.ts:44-80 | the action carries the factory's type string, the item unchanged, the hovered cell's id and the effective level; an omitted level counts as 0, so the level is 0 when it is omitted next to no inline pair; `ids` is the supplied batch when given and the generated batch otherwise |
| `CellInsert.IsNew` | packages/core/src/actions/cell/insert.ts:84-85 | an item without a truthy id is new; an item with an id is new exactly when it has `rows` and no `levels`; an item with an id and `levels`, or with no `rows`, counts as moved |
| `CellInsert.SyncEffects` | packages/core/src/actions/cell/insert.ts:82-89 | the insert action is dispatched first; edit mode is dispatched second exactly when the item is new; nothing else, and no focus, is dispatched synchronously |
| `CellInsert.RunInsert` | packages/core/src/actions/cell/insert.ts:82-93 | the thunk appends the synchronous effects to the store's log and schedules exactly one focus on `ids.item`, whether or not the item is new |
| `CellInsert.RunInsertAndTimer` | packages/core/src/actions/cell/insert.ts:82-93 | when no other timer is waiting, running the thunk and then its timer leaves the focus on `ids.item` in the log right after the synchronous dispatches |
| `CellInsert.RunInserts` | packages/core/src/actions/cell/insert.ts:82-93 | running several thunks one after another appends `SyncLog` of the calls to the log and `FocusQueue` of the calls to the pending timers |
| `CellInsert.SyncLogInserts` | packages/core/src/actions/cell/insert.ts:82-83 | across several calls, the log holds each call's insert action exactly once, in call order |
| `CellInsert.SyncLogPerCall` | packages/core/src/actions/cell/insert.ts:82-89 | in the log of several calls, each call's insert action sits at the offset where that call's effects begin, and edit mode follows it exactly when that call's item is new, so a moved item never gets one |
| `CellInsert.SyncLogEditModes` | packages/core/src/actions/cell/insert.ts:85-89 | across several calls, the number of edit-mode actions equals the number of new items |
| `CellInsert.FocusQueuePerCall` | packages/core/src/actions/cell/insert.ts:90-92 | across several calls, the pending focuses are one per call, in call order, each on that call's item id |
| `EditableInner.FallbackDecision` | packages/core/src/components/Editable/Inner/index.tsx:93-103 | no request when the node is absent; one request exactly when the node is present and its cell list is missing or empty; the request carries the default plugin and the editable's id |
| `EditableInner.RenderCells` | packages/core/src/components/Editable/Inner/index.tsx:114-123 | one child per cell id, in the same order, each with `id` and `key` equal to the cell id, `editable` equal to the editable's id, empty `ancestors`, and the container's width and height |
| `EditableInner.Render` | packages/core/src/components/Editable/Inner/index.tsx:105-126 | nothing for an absent node; otherwise one child per cell id (none when the list is missing), in order, each with `id` and `key` equal to its cell id, `editable` equal to the editable's id, empty `ancestors`, and the container's width and height |
| `EditableInner.FallbackIffEmptyRender` | packages/core/src/components/Editable/Inner/index.tsx:93-126 | a fallback cell is requested exactly when `render` would show the editable with no children |
| `EditableInner.RenderedKeysDistinct` | packages/core/src/components/Editable/Inner/index.tsx:114-122 | distinct cell ids give the children distinct keys |
| `EditableInner.FallbackRunsPerCheck` | packages/core/src/components/Editable/Inner/index.tsx:71-103 | over a run of checks, the requests are one per check that sees a present node with no cells, in the order of those checks, each carrying that check's default plugin and editable id; checks that see cells or no node request nothing |
| `EditableInner.DisplayModeReadsOnlyMode` | packages/core/src/components/Editable/Inner/index.tsx:129-133 | the selector returns `reactPage.display.mode` as stored, whatever the rest of the state holds |
| `EditableInner.Inner.CreateFallbackCell` | packages/core/src/components/Editable/Inner/index.tsx:93-103 | dispatches exactly the request `FallbackDecision` describes for the current props, and nothing else |
| `EditableInner.Inner.ComponentDidMount` | packages/core/src/components/Editable/Inner/index.tsx:71-75 | mounting runs the fallback check once on the initial props |
| `EditableInner.Inner.ComponentDidUpdate` | packages/core/src/components/Editable/Inner/index.tsx:77-87 | each update runs the fallback check once on the new props |
| `EditableInner.Inner.UpdateAll` | packages/core/src/components/Editable/Inner/index.tsx:77-78 | a series of updates appends `FallbackRuns` of the new props to the log and leaves the last props in place |
| `EditableInner.Inner.MountAndUpdate` | packages/core/src/components/Editable/Inner/index.tsx:71-78 | mounting and then a series of updates appends `FallbackRuns` of the whole history of props to the log, so `FallbackRunsPerCheck` describes what the component requests; the props are the last ones given, or unchanged when there are no updates |

## Left out

- The wall-clock `ts: new Date()` field of the insert action is not modelled.
- `generateIds` is not part of this model. Its result is the `generated` argument of `CellInsert.Insert`. The model does not state that the ids are fresh.
- `editMode()` and `focusCell(id)()` are not part of this model. Their actions are the opaque constructors `EditMode` and `FocusCell(id)`.
- The 300 ms delay of `setTimeout` is not modelled. A timer is an entry in `Store.pending`, which runs after the synchronous dispatches. Real timing and the ordering of timers of different lengths are not captured.
- The reducers that apply the insert, edit-mode, focus and fallback actions to the document tree are not part of this model. The store only records the actions it receives.
- The exported raw `insert` factory accepts any type string. The model does too: `CellInsert.Insert` takes the type string, and a string other than the four promoting constants keeps the requested level. The `insertActions` table itself is an export list and is not modelled.
- CellInsert.RunInsertAndTimer: it is stated only for a store with no other timer waiting. With earlier timers pending, they fire first, as `Store.RunPending` states.
- CellInsert.EffectiveLevel: `level` is a JavaScript number. The model uses integers, so a fractional level such as 0.5 (which the source would raise to 1) is not modelled. A `null` level, which bypasses the default, is not modelled either.
- Arguments passed as `null` instead of left out are not modelled. This covers `null` cells, which the source would fail on, and a `null` hovered cell.
- `isElementInViewport`, the throttled `onScroll`, the scroll restoration on a display-mode change and the global blur listeners are left out. They are DOM geometry, window events and timers.
- `mapStateToProps`, `purifiedEditable`, the dimensions wrapper and the store connection are left out. The component takes their results as its props.
- The default plugin is known by its name. The plugin object that `ContentPlugin` wraps is opaque.
- The shapes of `NewIds` (item, cell and spare ids) and `Levels` come from the repository's type definitions, which are not part of this model. The model never reads a `Levels` record's contents.
