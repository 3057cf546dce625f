/**
 * The inner component of an editable: it asks for a fallback cell whenever the
 * editable it shows has no cells, renders one child cell per cell id, and
 * reads the display mode out of the store's state.
 */
module EditableInner {
  import opened Wrappers
  import opened Redux

  type Id = string

  /** The purified editable handed to the component; `cells` may be missing. */
  datatype EditableNode = EditableNode(cells: Option<seq<Id>>)

  /**
   * The props the component reads. `node` is missing when the editable is not
   * in the store; `defaultPlugin` is the configured default content plugin,
   * known here by its name; the container sizes come from the dimensions wrapper.
   */
  datatype InnerProps = InnerProps(
    id: Id,
    node: Option<EditableNode>,
    defaultPlugin: string,
    containerWidth: real,
    containerHeight: real)

  /** `new ContentPlugin(defaultPlugin)`. */
  datatype ContentPlugin = ContentPlugin(config: string)

  /** The arguments of one `createFallbackCell(plugin, editable)` call. */
  datatype FallbackRequest = FallbackRequest(plugin: ContentPlugin, editable: Id)

  /** `createFallbackCell`: request a fallback cell exactly when a present node has no cells. */
  function FallbackDecision(p: InnerProps): (r: Option<FallbackRequest>)
    ensures p.node.None? ==> r.None?
    ensures r.Some? <==> p.node.Some? && (p.node.value.cells.None? || p.node.value.cells.value == [])
    ensures r.Some? ==> r.value.plugin == ContentPlugin(p.defaultPlugin) && r.value.editable == p.id
  {
    match p.node
    case None => None
    case Some(node) =>
      var cells := node.cells.GetOr([]);
      if |cells| == 0 then Some(FallbackRequest(ContentPlugin(p.defaultPlugin), p.id)) else None
  }

  /** The props of one child `<Cell>` element. */
  datatype CellProps = CellProps(
    rowWidth: real,
    rowHeight: real,
    editable: Id,
    ancestors: seq<Id>,
    key: Id,
    id: Id)

  /** `cells.map(c => <Cell … />)`: one child per cell id, in the same order. */
  function RenderCells(cells: seq<Id>, p: InnerProps): (r: seq<CellProps>)
    ensures |r| == |cells|
    ensures forall i :: 0 <= i < |r| ==>
              r[i].id == cells[i] && r[i].key == cells[i] && r[i].editable == p.id && r[i].ancestors == []
    ensures forall i :: 0 <= i < |r| ==>
              r[i].rowWidth == p.containerWidth && r[i].rowHeight == p.containerHeight
  {
    if cells == [] then []
    else [CellProps(p.containerWidth, p.containerHeight, p.id, [], cells[0], cells[0])] + RenderCells(cells[1..], p)
  }

  /** `render`: nothing for a missing node, otherwise the children of its cell list (missing means empty). */
  function Render(p: InnerProps): (r: Option<seq<CellProps>>)
    ensures r.None? <==> p.node.None?
    ensures r.Some? && p.node.value.cells.None? ==> r.value == []
    ensures r.Some? && p.node.value.cells.Some? ==>
              |r.value| == |p.node.value.cells.value| &&
              forall i :: 0 <= i < |r.value| ==>
                r.value[i].id == p.node.value.cells.value[i] && r.value[i].key == p.node.value.cells.value[i]
    ensures r.Some? ==> forall c :: c in r.value ==>
              c.editable == p.id && c.ancestors == [] &&
              c.rowWidth == p.containerWidth && c.rowHeight == p.containerHeight
  {
    match p.node
    case None => None
    case Some(node) => Some(RenderCells(node.cells.GetOr([]), p))
  }

  /** A fallback cell is requested exactly when the component renders an editable with no children. */
  lemma FallbackIffEmptyRender(p: InnerProps)
    ensures FallbackDecision(p).Some? <==> Render(p) == Some([])
  {
  }

  /** Distinct cell ids give the children distinct React keys. */
  lemma RenderedKeysDistinct(cells: seq<Id>, p: InnerProps)
    requires forall i, j :: 0 <= i < j < |cells| ==> cells[i] != cells[j]
    ensures forall i, j :: 0 <= i < j < |RenderCells(cells, p)| ==>
              RenderCells(cells, p)[i].key != RenderCells(cells, p)[j].key
  {
  }

  /** The requests made over a run of checks, one check per props value, in order. */
  function FallbackRuns(history: seq<InnerProps>): seq<FallbackRequest> {
    if history == [] then [] else FallbackRuns(history[..|history| - 1]) + FallbackDecision(history[|history| - 1]).AsSeq()
  }

  /** One more check appends its own request, if any. */
  lemma FallbackRunsAppend(history: seq<InnerProps>, p: InnerProps)
    ensures FallbackRuns(history + [p]) == FallbackRuns(history) + FallbackDecision(p).AsSeq()
  {
  }

  /** The requests of two runs of checks, one after the other. */
  lemma {:induction false} FallbackRunsConcat(a: seq<InnerProps>, b: seq<InnerProps>)
    ensures FallbackRuns(a + b) == FallbackRuns(a) + FallbackRuns(b)
    decreases |b|
  {
    if b == [] {
      assert a + b == a;
    } else {
      var init, last := b[..|b| - 1], b[|b| - 1];
      assert b == init + [last];
      assert a + b == (a + init) + [last];
      calc {
        FallbackRuns(a + b);
        { FallbackRunsAppend(a + init, last); }
        FallbackRuns(a + init) + FallbackDecision(last).AsSeq();
        { FallbackRunsConcat(a, init); }
        FallbackRuns(a) + FallbackRuns(init) + FallbackDecision(last).AsSeq();
        { FallbackRunsAppend(init, last); }
        FallbackRuns(a) + FallbackRuns(b);
      }
    }
  }

  /** The props values in `history` whose node is present and has no cells, in order. */
  function EmptyChecks(history: seq<InnerProps>): seq<InnerProps> {
    if history == [] then []
    else
      var last := history[|history| - 1];
      EmptyChecks(history[..|history| - 1]) + (if Render(last) == Some([]) then [last] else [])
  }

  /**
   * Over a component's life, the requests are one per check that sees an
   * empty node, in the order of those checks, each for that check's editable
   * and default plugin; checks that see cells, or no node, request nothing.
   */
  lemma {:induction false} FallbackRunsPerCheck(history: seq<InnerProps>)
    ensures forall p :: p in EmptyChecks(history) ==> p in history && Render(p) == Some([])
    ensures |FallbackRuns(history)| == |EmptyChecks(history)|
    ensures forall i :: 0 <= i < |FallbackRuns(history)| ==>
              FallbackRuns(history)[i] ==
              FallbackRequest(ContentPlugin(EmptyChecks(history)[i].defaultPlugin), EmptyChecks(history)[i].id)
    ensures forall r :: r in FallbackRuns(history) ==>
              exists p :: p in history && Render(p) == Some([]) &&
                          r == FallbackRequest(ContentPlugin(p.defaultPlugin), p.id)
  {
    if history != [] {
      var init, last := history[..|history| - 1], history[|history| - 1];
      FallbackRunsPerCheck(init);
      FallbackIffEmptyRender(last);
      assert forall p :: p in init ==> p in history;
    }
    var runs, empty := FallbackRuns(history), EmptyChecks(history);
    forall r | r in runs
      ensures exists p :: p in history && Render(p) == Some([]) &&
                          r == FallbackRequest(ContentPlugin(p.defaultPlugin), p.id)
    {
      var i :| 0 <= i < |runs| && runs[i] == r;
      assert empty[i] in empty;
    }
  }

  /** Reading the state: `reactPage.display.mode` and the rest of the store, which the selector ignores. */
  datatype DisplayState = DisplayState(mode: string)
  datatype ReactPageState<S> = ReactPageState(display: DisplayState, rest: S)
  datatype RootState<S, T> = RootState(reactPage: ReactPageState<S>, rest: T)

  /** The `displayMode` selector. */
  function DisplayMode<S, T>(state: RootState<S, T>): string {
    state.reactPage.display.mode
  }

  /** The selector returns the stored mode whatever the rest of the state holds. */
  lemma DisplayModeReadsOnlyMode<S, T>(s: RootState<S, T>, t: RootState<S, T>)
    ensures DisplayMode(s) == s.reactPage.display.mode
    ensures s.reactPage.display == t.reactPage.display ==> DisplayMode(s) == DisplayMode(t)
  {
  }

  /** The component instance: its current props and the store its dispatches go to. */
  class Inner {
    var props: InnerProps
    const store: Store<FallbackRequest>

    constructor (props: InnerProps, store: Store<FallbackRequest>)
      ensures this.props == props && this.store == store
    {
      this.props := props;
      this.store := store;
    }

    /** Run the fallback check on the current props. */
    method CreateFallbackCell()
      modifies store
      ensures store.log == old(store.log) + FallbackDecision(props).AsSeq()
      ensures store.pending == old(store.pending)
    {
      var node := props.node;
      if node.None? {
        return;
      }
      var cells := node.value.cells.GetOr([]);
      if |cells| == 0 {
        store.Dispatch(FallbackRequest(ContentPlugin(props.defaultPlugin), props.id));
      }
    }

    /** `componentDidMount`: the fallback check runs (blurring and scroll listeners are not modelled). */
    method ComponentDidMount()
      modifies store
      ensures store.log == old(store.log) + FallbackRuns([props])
      ensures store.pending == old(store.pending)
    {
      CreateFallbackCell();
    }

    /**
     * `componentDidUpdate`, after React has replaced the props by `next`: the
     * fallback check runs again on the new props.
     */
    method ComponentDidUpdate(next: InnerProps)
      modifies this, store
      ensures props == next
      ensures store.log == old(store.log) + FallbackRuns([next])
      ensures store.pending == old(store.pending)
    {
      props := next;
      CreateFallbackCell();
    }

    /** Updates with each of `nexts` in turn, each running the fallback check on its new props. */
    method UpdateAll(nexts: seq<InnerProps>)
      modifies this, store
      ensures store.log == old(store.log) + FallbackRuns(nexts)
      ensures store.pending == old(store.pending)
      ensures nexts != [] ==> props == nexts[|nexts| - 1]
      ensures nexts == [] ==> props == old(props)
    {
      var i := 0;
      while i < |nexts|
        invariant 0 <= i <= |nexts|
        invariant store.log == old(store.log) + FallbackRuns(nexts[..i])
        invariant store.pending == old(store.pending)
        invariant i > 0 ==> props == nexts[i - 1]
        invariant i == 0 ==> props == old(props)
      {
        FallbackRunsAppend(nexts[..i], nexts[i]);
        ComponentDidUpdate(nexts[i]);
        assert nexts[..i + 1] == nexts[..i] + [nexts[i]];
        i := i + 1;
      }
      assert nexts[..|nexts|] == nexts;
    }

    /** The component's life: mounted with its current props, then updated with each of `nexts` in turn. */
    method MountAndUpdate(nexts: seq<InnerProps>)
      modifies this, store
      ensures store.log == old(store.log) + FallbackRuns([old(props)] + nexts)
      ensures store.pending == old(store.pending)
      ensures nexts != [] ==> props == nexts[|nexts| - 1]
      ensures nexts == [] ==> props == old(props)
    {
      ComponentDidMount();
      UpdateAll(nexts);
      FallbackRunsConcat([old(props)], nexts);
    }
  }
}
