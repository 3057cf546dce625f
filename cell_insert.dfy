/**
 * The cell-insert command builder: `insert(type)` turns an action type, the
 * item to insert, the hovered cell, a requested level and an optional batch of
 * ids into an insert action, and returns a thunk that dispatches that action,
 * enters edit mode when the item is new, and schedules a focus on the
 * inserted item.
 */
module CellInsert {
  import opened Wrappers
  import opened Redux

  type Id = string

  /** JavaScript truthiness of an optional string field: present and not empty. */
  predicate Truthy(s: Option<string>) {
    s.Some? && s.value != ""
  }

  /** The `levels` record of a cell; the insert builder only asks whether it is present. */
  datatype Levels = Levels(above: int, below: int, right: int, left: int)

  /**
   * The fields of a `Partial<Cell>` that the builder reads; each may be missing.
   * `rows` is an array, so it is truthy whenever present, even when empty;
   * `levels` is an object, truthy whenever present.
   */
  datatype PartialCell = PartialCell(
    id: Option<Id>,
    inline: Option<string>,
    hasInlineNeighbour: Option<string>,
    rows: Option<seq<Id>>,
    levels: Option<Levels>)

  /** A batch of fresh identifiers: one for the inserted item, one for its cell, and spares. */
  datatype NewIds = NewIds(item: Id, cell: Id, others: seq<Id>)

  /** The six exported action type constants. */
  const CELL_INSERT_ABOVE := "CELL_INSERT_ABOVE"
  const CELL_INSERT_BELOW := "CELL_INSERT_BELOW"
  const CELL_INSERT_LEFT_OF := "CELL_INSERT_LEFT_OF"
  const CELL_INSERT_RIGHT_OF := "CELL_INSERT_RIGHT_OF"
  const CELL_INSERT_INLINE_LEFT := "CELL_INSERT_INLINE_LEFT"
  const CELL_INSERT_INLINE_RIGHT := "CELL_INSERT_INLINE_RIGHT"

  /** The six exported specialisations `insertCellAbove`, …, `insertCellRightInline`, one per constant. */
  datatype InsertKind = Above | Below | LeftOf | RightOf | InlineLeft | InlineRight

  /** The action type each exported specialisation passes to the factory. */
  function TypeName(kind: InsertKind): string {
    match kind
    case Above => CELL_INSERT_ABOVE
    case Below => CELL_INSERT_BELOW
    case LeftOf => CELL_INSERT_LEFT_OF
    case RightOf => CELL_INSERT_RIGHT_OF
    case InlineLeft => CELL_INSERT_INLINE_LEFT
    case InlineRight => CELL_INSERT_INLINE_RIGHT
  }

  /** The six type strings are pairwise distinct, so a reducer can tell the kinds apart. */
  lemma TypeNamesDistinct(j: InsertKind, k: InsertKind)
    ensures TypeName(j) == TypeName(k) <==> j == k
  {
  }

  /** The hovered cell is one half of an inline pair, or sits next to one. */
  predicate NextToInline(hover: PartialCell) {
    Truthy(hover.inline) || Truthy(hover.hasInlineNeighbour)
  }

  /** The action types that have a case in the factory's `switch`. */
  predicate Promoting(actionType: string) {
    actionType in {CELL_INSERT_ABOVE, CELL_INSERT_BELOW, CELL_INSERT_LEFT_OF, CELL_INSERT_RIGHT_OF}
  }

  /**
   * The `switch (type)` that raises the requested level to 1 next to an inline
   * pair. Only ABOVE, BELOW, LEFT_OF and RIGHT_OF have a case; every other
   * type, the two INLINE ones included, falls through to `default` and keeps
   * the requested level.
   */
  function EffectiveLevel(actionType: string, hover: PartialCell, level: int): (l: int)
    ensures l >= level
    ensures Promoting(actionType) && NextToInline(hover) && level < 1 ==> l == 1
    ensures !(Promoting(actionType) && NextToInline(hover)) ==> l == level
    ensures level >= 1 ==> l == level
    ensures actionType in {CELL_INSERT_INLINE_LEFT, CELL_INSERT_INLINE_RIGHT} ==> l == level
  {
    if actionType == CELL_INSERT_ABOVE || actionType == CELL_INSERT_BELOW then
      if (Truthy(hover.inline) || Truthy(hover.hasInlineNeighbour)) && level < 1 then 1 else level
    else if actionType == CELL_INSERT_LEFT_OF || actionType == CELL_INSERT_RIGHT_OF then
      if (Truthy(hover.inline) || Truthy(hover.hasInlineNeighbour)) && level < 1 then 1 else level
    else
      level
  }

  /** Of the six exported specialisations, exactly the four non-inline ones raise the level. */
  lemma ExportedPromotion(kind: InsertKind, hover: PartialCell, level: int)
    ensures Promoting(TypeName(kind)) <==> !(kind.InlineLeft? || kind.InlineRight?)
    ensures EffectiveLevel(TypeName(kind), hover, level) ==
              if !(kind.InlineLeft? || kind.InlineRight?) && NextToInline(hover) && level < 1 then 1 else level
  {
  }

  /** The insert action; the wall-clock `ts` field is not modelled. */
  datatype InsertAction = InsertAction(
    actionType: string,
    item: PartialCell,
    hover: Option<Id>,
    level: int,
    ids: NewIds)

  /**
   * `insert(type)(item, hover, level, ids)` up to the returned thunk: the action
   * it builds. `level` and `ids` are `None` when the caller omits them;
   * `generated` is what `generateIds()` returns when it is called.
   */
  function Insert(actionType: string, item: PartialCell, hover: PartialCell, level: Option<int>,
                  ids: Option<NewIds>, generated: NewIds): (a: InsertAction)
    ensures a.actionType == actionType
    ensures a.item == item
    ensures a.hover == hover.id
    ensures level.Some? ==> a.level >= level.value
    ensures level.None? ==> a.level >= 0
    ensures level.None? && !NextToInline(hover) ==> a.level == 0
    ensures a.level == EffectiveLevel(actionType, hover, level.GetOr(0))
    ensures ids.Some? ==> a.ids == ids.value
    ensures ids.None? ==> a.ids == generated
  {
    var l := EffectiveLevel(actionType, hover, level.GetOr(0));
    InsertAction(actionType, item, hover.id, l, if ids.Some? then ids.value else generated)
  }

  /**
   * Whether the inserted item is new rather than moved: it has no id, or it
   * carries child rows without the `levels` marker.
   */
  function IsNew(item: PartialCell): (isNew: bool)
    ensures !Truthy(item.id) ==> isNew
    ensures Truthy(item.id) && item.rows.None? ==> !isNew
    ensures Truthy(item.id) && item.levels.Some? ==> !isNew
    ensures Truthy(item.id) && item.rows.Some? && item.levels.None? ==> isNew
  {
    !Truthy(item.id) || (item.rows.Some? && item.levels.None?)
  }

  /** The actions the thunk dispatches, and the one it schedules. */
  datatype Action = InsertCell(action: InsertAction) | EditMode | FocusCell(id: Id)

  /** What the thunk dispatches synchronously, in order. */
  function SyncEffects(a: InsertAction): (r: seq<Action>)
    ensures |r| == if IsNew(a.item) then 2 else 1
    ensures r[0] == InsertCell(a)
    ensures EditMode in r <==> IsNew(a.item)
    ensures IsNew(a.item) ==> r[1] == EditMode
    ensures forall i :: 0 <= i < |r| ==> !r[i].FocusCell?
  {
    [InsertCell(a)] + (if IsNew(a.item) then [EditMode] else [])
  }

  /**
   * The thunk `dispatch => { … }` returned by `insert`: dispatch the insert
   * action, then edit mode when the item is new, then schedule exactly one
   * focus on the inserted item's id.
   */
  method RunInsert(store: Store<Action>, a: InsertAction)
    modifies store
    ensures store.log == old(store.log) + SyncEffects(a)
    ensures store.pending == old(store.pending) + [FocusCell(a.ids.item)]
  {
    store.Dispatch(InsertCell(a));
    var isNew := IsNew(a.item);
    if isNew {
      store.Dispatch(EditMode);
    }
    store.Defer(FocusCell(a.ids.item));
  }

  // ---------------------------------------------------------------------------
  // Running several insert thunks one after another.

  /** The synchronous log after running the thunks of `acts`, in order. */
  function SyncLog(acts: seq<InsertAction>): seq<Action> {
    if acts == [] then [] else SyncLog(acts[..|acts| - 1]) + SyncEffects(acts[|acts| - 1])
  }

  /** The timers pending after running the thunks of `acts`, in order. */
  function FocusQueue(acts: seq<InsertAction>): seq<Action> {
    if acts == [] then [] else FocusQueue(acts[..|acts| - 1]) + [FocusCell(acts[|acts| - 1].ids.item)]
  }

  /** The insert actions of a log, in order. */
  function InsertsOf(log: seq<Action>): seq<InsertAction> {
    if log == [] then []
    else (if log[0].InsertCell? then [log[0].action] else []) + InsertsOf(log[1..])
  }

  /** The number of edit-mode actions in a log. */
  function EditModes(log: seq<Action>): nat {
    if log == [] then 0 else (if log[0] == EditMode then 1 else 0) + EditModes(log[1..])
  }

  /** The number of new items among the inserted ones. */
  function NewItems(acts: seq<InsertAction>): nat {
    if acts == [] then 0 else NewItems(acts[..|acts| - 1]) + (if IsNew(acts[|acts| - 1].item) then 1 else 0)
  }

  lemma {:induction false} InsertsOfAppend(x: seq<Action>, y: seq<Action>)
    ensures InsertsOf(x + y) == InsertsOf(x) + InsertsOf(y)
  {
    if x == [] {
      assert x + y == y;
    } else {
      assert (x + y)[1..] == x[1..] + y;
      InsertsOfAppend(x[1..], y);
    }
  }

  lemma {:induction false} EditModesAppend(x: seq<Action>, y: seq<Action>)
    ensures EditModes(x + y) == EditModes(x) + EditModes(y)
  {
    if x == [] {
      assert x + y == y;
    } else {
      assert (x + y)[1..] == x[1..] + y;
      EditModesAppend(x[1..], y);
    }
  }

  /** Running a sequence of thunks puts their insert actions in the log exactly once each, in call order. */
  lemma {:induction false} SyncLogInserts(acts: seq<InsertAction>)
    ensures InsertsOf(SyncLog(acts)) == acts
  {
    if acts != [] {
      var init, last := acts[..|acts| - 1], acts[|acts| - 1];
      SyncLogInserts(init);
      InsertsOfAppend(SyncLog(init), SyncEffects(last));
      var e := SyncEffects(last);
      assert InsertsOf(e) == [last] by {
        assert InsertsOf(e[1..]) == [] by {
          if IsNew(last.item) {
            assert e[1..][1..] == [];
          }
        }
      }
      assert init + [last] == acts;
    }
  }

  /**
   * The number of edit-mode actions equals the number of new items; that each
   * one follows its own new item's insert action is `SyncLogPerCall`.
   */
  lemma {:induction false} SyncLogEditModes(acts: seq<InsertAction>)
    ensures EditModes(SyncLog(acts)) == NewItems(acts)
  {
    if acts != [] {
      var init, last := acts[..|acts| - 1], acts[|acts| - 1];
      SyncLogEditModes(init);
      EditModesAppend(SyncLog(init), SyncEffects(last));
      var e := SyncEffects(last);
      assert EditModes(e) == if IsNew(last.item) then 1 else 0 by {
        assert e[0] != EditMode;
        if IsNew(last.item) {
          assert e[1..] == [EditMode];
          assert EditModes(e[1..]) == 1 + EditModes(e[1..][1..]);
          assert e[1..][1..] == [];
        } else {
          assert e[1..] == [];
        }
      }
    }
  }

  /** One focus is scheduled per call, on that call's item id, in call order. */
  lemma {:induction false} FocusQueuePerCall(acts: seq<InsertAction>)
    ensures |FocusQueue(acts)| == |acts|
    ensures forall i :: 0 <= i < |acts| ==> FocusQueue(acts)[i] == FocusCell(acts[i].ids.item)
  {
    if acts != [] {
      var init := acts[..|acts| - 1];
      FocusQueuePerCall(init);
      assert forall i :: 0 <= i < |init| ==> init[i] == acts[i];
    }
  }

  /** The log of a prefix of the calls is a prefix of the log of all of them. */
  lemma {:induction false} SyncLogPrefix(acts: seq<InsertAction>, j: nat)
    requires j <= |acts|
    ensures SyncLog(acts[..j]) <= SyncLog(acts)
    decreases |acts| - j
  {
    if j == |acts| {
      assert acts[..j] == acts;
    } else {
      var init := acts[..|acts| - 1];
      SyncLogPrefix(init, j);
      assert init[..j] == acts[..j];
    }
  }

  /**
   * Call `i`'s effects start at offset `|SyncLog(acts[..i])|` of the log: its
   * insert action comes first, and edit mode follows it exactly when that
   * call's item is new, so a moved item never gets one.
   */
  lemma {:induction false} SyncLogPerCall(acts: seq<InsertAction>, i: nat)
    requires i < |acts|
    ensures |SyncLog(acts[..i])| < |SyncLog(acts)|
    ensures SyncLog(acts)[|SyncLog(acts[..i])|] == InsertCell(acts[i])
    ensures (|SyncLog(acts[..i])| + 1 < |SyncLog(acts)| && SyncLog(acts)[|SyncLog(acts[..i])| + 1] == EditMode)
            <==> IsNew(acts[i].item)
  {
    var log, off := SyncLog(acts), |SyncLog(acts[..i])|;
    SyncLogPrefix(acts, i + 1);
    assert acts[..i + 1][..i] == acts[..i];
    var here := SyncLog(acts[..i + 1]);
    assert here == SyncLog(acts[..i]) + SyncEffects(acts[i]);
    assert log[off] == here[off] == InsertCell(acts[i]);
    if IsNew(acts[i].item) {
      assert log[off + 1] == here[off + 1] == EditMode;
    } else if i + 1 < |acts| {
      // The next position holds the next call's insert action.
      SyncLogPrefix(acts, i + 2);
      assert acts[..i + 2][..i + 1] == acts[..i + 1];
      assert SyncLog(acts[..i + 2]) == here + SyncEffects(acts[i + 1]);
      assert log[off + 1] == SyncLog(acts[..i + 2])[off + 1] == InsertCell(acts[i + 1]);
    } else {
      // This was the last call: the log ends with its insert action.
      assert acts[..i + 1] == acts;
    }
  }

  /** Running the thunks of `acts` one after another, as successive insert gestures do. */
  method RunInserts(store: Store<Action>, acts: seq<InsertAction>)
    modifies store
    ensures store.log == old(store.log) + SyncLog(acts)
    ensures store.pending == old(store.pending) + FocusQueue(acts)
  {
    var i := 0;
    while i < |acts|
      invariant 0 <= i <= |acts|
      invariant store.log == old(store.log) + SyncLog(acts[..i])
      invariant store.pending == old(store.pending) + FocusQueue(acts[..i])
    {
      RunInsert(store, acts[i]);
      assert acts[..i + 1][..i] == acts[..i];
      i := i + 1;
    }
    assert acts[..|acts|] == acts;
  }

  /**
   * The thunk, then the event loop firing its timer while no other timer was
   * waiting: the focus on the new item lands right after the synchronous dispatches.
   */
  method RunInsertAndTimer(store: Store<Action>, a: InsertAction)
    requires store.pending == []
    modifies store
    ensures store.log == old(store.log) + SyncEffects(a) + [FocusCell(a.ids.item)]
    ensures store.pending == []
  {
    RunInsert(store, a);
    var ran := store.RunPending();
  }
}
