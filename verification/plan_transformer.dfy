/** Lowering of a chosen physical operator tree to a plan tree, as the
    transformer's visitor does it. The visitor's fields become an explicit
    state: the plan and output columns of the last visited node (which
    VisitOpExpression does not restore) and the left/right column lists
    (which it does). The child list the visitor keeps in `current_children`
    is the visited node's own `children`. */
module OperatorToPlanTransformer {
  import opened Results

  /** A table of the storage layer, by identity. */
  type TableRef = nat

  /** catalog::Column: what a plan schema is made of. */
  datatype SchemaColumn = SchemaColumn(name: string, typeCode: nat)

  /** Optimizer columns: a column of a base table, carrying its position
      in the table, or a column computed by an expression. */
  datatype Column =
    | TableColumn(identity: nat, columnIndexOid: nat, schemaColumn: SchemaColumn)
    | ExprColumn(identity: nat, schemaColumn: SchemaColumn)

  /** The operators of an operator tree. `Scalar` stands for the operators
      of predicate and target-expression subtrees, which the transformer
      passes to the expression converter but never lowers itself. */
  datatype PhysicalOperator =
    | PhysicalScan(table: TableRef, columns: seq<Column>)
    | PhysicalProject
    | PhysicalComputeExprs
    | PhysicalFilter
    | PhysicalInnerNLJoin | PhysicalLeftNLJoin | PhysicalRightNLJoin | PhysicalOuterNLJoin
    | PhysicalInnerHashJoin | PhysicalLeftHashJoin | PhysicalRightHashJoin | PhysicalOuterHashJoin
    | Scalar(code: nat)

  datatype OperatorExpression = OperatorExpression(op: PhysicalOperator, children: seq<OperatorExpression>)

  /** An executable expression, as the expression converter would build it
      from an operator subtree. */
  datatype AbstractExpression = CompiledExpression(source: OperatorExpression)

  /** One entry of a projection's target list: output position and the
      expression computing it. */
  datatype Target = Target(column: nat, expr: Option<AbstractExpression>)

  /** planner::ProjectInfo; its direct-map list is always empty here. */
  datatype ProjectInfo = ProjectInfo(targetList: seq<Target>)

  type Schema = seq<SchemaColumn>

  /** The plan nodes the transformer builds. A child slot can hold a null
      plan: AddChild is called with whatever the child's visit left. */
  datatype Plan =
    | SeqScanPlan(table: Option<TableRef>, condition: Option<AbstractExpression>,
                  columnIds: seq<nat>, children: seq<Option<Plan>>)
    | ProjectionPlan(projectInfo: ProjectInfo, schema: Schema, children: seq<Option<Plan>>)

  datatype State = State(outputPlan: Option<Plan>, outputColumns: seq<Column>,
                         leftColumns: seq<Column>, rightColumns: seq<Column>)

  /** The assert()s of the visitor, and the unchecked `children[k]` reads,
      which the model refuses instead of reading past the end. */
  datatype LoweringError =
    | ArityAssertion(expected: nat, actual: nat)
    | NotATableColumn
    | MissingChild

  /** A freshly constructed transformer: no plan and no columns yet. */
  function InitialState(): (s: State)
    ensures s.outputPlan.None?
    ensures s.outputColumns == [] && s.leftColumns == [] && s.rightColumns == []
  {
    State(None, [], [], [])
  }

  /** ConvertToAbstractExpression is a stub in the source: it always yields
      null, whatever subtree it is given. */
  function ConvertToAbstractExpression(e: OperatorExpression): (r: Option<AbstractExpression>)
    ensures r.None?
  {
    None
  }

  function GetSchemaColumnFromOptimizerColumn(c: Column): SchemaColumn
  {
    c.schemaColumn
  }

  /** BuildSchemaFromColumns: one schema column per column, in order. */
  function BuildSchemaFromColumns(columns: seq<Column>): (s: Schema)
    ensures |s| == |columns|
    ensures forall i :: 0 <= i < |s| ==> s[i] == GetSchemaColumnFromOptimizerColumn(columns[i])
  {
    if |columns| == 0 then []
    else [GetSchemaColumnFromOptimizerColumn(columns[0])] + BuildSchemaFromColumns(columns[1..])
  }

  /** BuildProjectInfoFromExprs: target i puts expression i at output
      position i. */
  function BuildProjectInfoFromExprs(exprs: seq<Option<AbstractExpression>>): (p: ProjectInfo)
    ensures |p.targetList| == |exprs|
    ensures forall i :: 0 <= i < |exprs| ==> p.targetList[i].column == i && p.targetList[i].expr == exprs[i]
  {
    ProjectInfo(TargetsFrom(exprs, 0))
  }

  function TargetsFrom(exprs: seq<Option<AbstractExpression>>, first: nat): (ts: seq<Target>)
    ensures |ts| == |exprs|
    ensures forall i :: 0 <= i < |exprs| ==> ts[i].column == first + i && ts[i].expr == exprs[i]
    decreases |exprs|
  {
    if |exprs| == 0 then []
    else [Target(first, exprs[0])] + TargetsFrom(exprs[1..], first + 1)
  }

  /** ConcatLeftAndRightColumns: the left columns, then the right ones. */
  function ConcatLeftAndRightColumns(left: seq<Column>, right: seq<Column>): (c: seq<Column>)
    ensures |c| == |left| + |right|
    ensures c[..|left|] == left && c[|left|..] == right
  {
    left + right
  }

  /** The column ids of a scan: each column must be a table column (the
      dynamic_cast assertion); its index oid is taken, in order. */
  function ColumnIndexOids(columns: seq<Column>): (r: Result<seq<nat>, LoweringError>)
    ensures r.Ok? <==> forall i :: 0 <= i < |columns| ==> columns[i].TableColumn?
    ensures r.Err? ==> r.error == NotATableColumn
    ensures r.Ok? ==> |r.value| == |columns|
    ensures r.Ok? ==> forall i :: 0 <= i < |columns| ==> r.value[i] == columns[i].columnIndexOid
  {
    if |columns| == 0 then Ok([])
    else if !columns[0].TableColumn? then Err(NotATableColumn)
    else
      match ColumnIndexOids(columns[1..])
      case Err(err) => Err(err)
      case Ok(rest) =>
        assert forall i :: 1 <= i < |columns| ==> columns[i] == columns[1..][i - 1];
        Ok([columns[0].columnIndexOid] + rest)
  }

  // ---------------------------------------------------------------------
  // The visitor
  // ---------------------------------------------------------------------

  /** VisitOpExpression: visits `e` with e's children as the current
      children and afterwards puts the left and right column lists back as
      they were. The output plan and output columns are not put back. */
  function VisitOpExpression(e: OperatorExpression, st: State): (r: Result<State, LoweringError>)
    ensures r.Ok? ==> r.value.leftColumns == st.leftColumns && r.value.rightColumns == st.rightColumns
    decreases e, 1
  {
    var visited :=
      match e.op
      case PhysicalScan(_, _) => VisitScan(e, st)
      case PhysicalComputeExprs => VisitComputeExprs(e, st)
      case PhysicalFilter => VisitFilter(e, st)
      case PhysicalInnerNLJoin => VisitInnerNLJoin(e, st)
      case PhysicalProject => VisitProject(e, st)
      case _ => VisitNothing(e, st);
    match visited
    case Err(err) => Err(err)
    case Ok(after) => Ok(after.(leftColumns := st.leftColumns, rightColumns := st.rightColumns))
  }

  /** Visit(PhysicalScan): a sequential scan over the table with the
      columns' index oids; the scan's columns become the output columns. */
  function VisitScan(e: OperatorExpression, st: State): (r: Result<State, LoweringError>)
    requires e.op.PhysicalScan?
    ensures r.Ok? <==> (forall i :: 0 <= i < |e.op.columns| ==> e.op.columns[i].TableColumn?) && |e.children| >= 2
    ensures (exists i :: 0 <= i < |e.op.columns| && !e.op.columns[i].TableColumn?) ==> r == Err(NotATableColumn)
    ensures r.Ok? ==> r.value.outputColumns == e.op.columns && r.value.leftColumns == e.op.columns
    ensures r.Ok? ==> r.value.rightColumns == st.rightColumns
    ensures r.Ok? ==>
      && r.value.outputPlan.Some?
      && var plan := r.value.outputPlan.value;
      && plan.SeqScanPlan?
      && plan.table == Some(e.op.table)
      && plan.condition == ConvertToAbstractExpression(e.children[1])
      && plan.children == []
      && |plan.columnIds| == |e.op.columns|
      && forall i :: 0 <= i < |e.op.columns| ==> plan.columnIds[i] == e.op.columns[i].columnIndexOid
    decreases e, 0
  {
    match ColumnIndexOids(e.op.columns)
    case Err(err) => Err(err)
    case Ok(columnIds) =>
      if |e.children| < 2 then Err(MissingChild)
      else
        var condition := ConvertToAbstractExpression(e.children[1]);
        Ok(State(Some(SeqScanPlan(Some(e.op.table), condition, columnIds, [])),
                 e.op.columns, e.op.columns, st.rightColumns))
  }

  /** Visit(PhysicalComputeExprs): child 0 is lowered first and becomes the
      projection's only child; child 1 lists the target expressions, one
      target per entry, each converted from that entry's first child. The
      projected-column list is never filled in the source, so the
      projection's schema and output columns are empty. */
  function VisitComputeExprs(e: OperatorExpression, st: State): (r: Result<State, LoweringError>)
    requires e.op.PhysicalComputeExprs?
    ensures |e.children| != 2 ==> r == Err(ArityAssertion(2, |e.children|))
    ensures |e.children| == 2 && VisitOpExpression(e.children[0], st).Err? ==>
      r == VisitOpExpression(e.children[0], st)
    ensures r.Ok? <==>
      && |e.children| == 2
      && VisitOpExpression(e.children[0], st).Ok?
      && forall t :: 0 <= t < |e.children[1].children| ==> |e.children[1].children[t].children| >= 1
    ensures r.Ok? ==>
      var child := VisitOpExpression(e.children[0], st).value;
      && r.value.outputColumns == []
      && r.value.leftColumns == child.outputColumns
      && r.value.rightColumns == st.rightColumns
      && r.value.outputPlan.Some?
      && var plan := r.value.outputPlan.value;
      && plan.ProjectionPlan?
      && plan.children == [child.outputPlan]
      && plan.schema == []
      && |plan.projectInfo.targetList| == |e.children[1].children|
      && forall t :: 0 <= t < |plan.projectInfo.targetList| ==>
           && plan.projectInfo.targetList[t].column == t
           && plan.projectInfo.targetList[t].expr == ConvertToAbstractExpression(e.children[1].children[t].children[0])
    decreases e, 0
  {
    if |e.children| != 2 then Err(ArityAssertion(2, |e.children|))
    else
      match VisitOpExpression(e.children[0], st)
      case Err(err) => Err(err)
      case Ok(child) =>
        var targets := e.children[1].children;
        if exists t :: 0 <= t < |targets| && |targets[t].children| == 0 then Err(MissingChild)
        else
          var exprs := seq(|targets|, t requires 0 <= t < |targets| => ConvertToAbstractExpression(targets[t].children[0]));
          var projColumns: seq<Column> := [];
          var plan := ProjectionPlan(BuildProjectInfoFromExprs(exprs), BuildSchemaFromColumns(projColumns), [child.outputPlan]);
          Ok(State(Some(plan), projColumns, child.outputColumns, child.rightColumns))
  }

  /** Visit(PhysicalFilter): child 0 is lowered first; the filter is built
      as a table-less sequential scan carrying the converted predicate of
      child 1, with the lowered child as its only child. The output columns
      are the child's. */
  function VisitFilter(e: OperatorExpression, st: State): (r: Result<State, LoweringError>)
    requires e.op.PhysicalFilter?
    ensures |e.children| != 2 ==> r == Err(ArityAssertion(2, |e.children|))
    ensures |e.children| == 2 ==> r.Ok? == VisitOpExpression(e.children[0], st).Ok?
    ensures |e.children| == 2 && VisitOpExpression(e.children[0], st).Err? ==>
      r == VisitOpExpression(e.children[0], st)
    ensures r.Ok? ==>
      var child := VisitOpExpression(e.children[0], st).value;
      && r.value.outputColumns == child.outputColumns
      && r.value.leftColumns == child.outputColumns
      && r.value.rightColumns == st.rightColumns
      && r.value.outputPlan == Some(SeqScanPlan(None, ConvertToAbstractExpression(e.children[1]), [], [child.outputPlan]))
    decreases e, 0
  {
    if |e.children| != 2 then Err(ArityAssertion(2, |e.children|))
    else
      match VisitOpExpression(e.children[0], st)
      case Err(err) => Err(err)
      case Ok(child) =>
        var condition := ConvertToAbstractExpression(e.children[1]);
        var plan := SeqScanPlan(None, condition, [], [child.outputPlan]);
        Ok(State(Some(plan), child.outputColumns, child.outputColumns, child.rightColumns))
  }

  /** Visit(PhysicalInnerNLJoin): only the arity assertion; the lowering of
      the join is commented out in the source. */
  function VisitInnerNLJoin(e: OperatorExpression, st: State): (r: Result<State, LoweringError>)
    requires e.op.PhysicalInnerNLJoin?
    ensures r.Ok? <==> |e.children| == 3
    ensures r.Ok? ==> r.value == st
    decreases e, 0
  {
    if |e.children| != 3 then Err(ArityAssertion(3, |e.children|)) else Ok(st)
  }

  /** Visit(PhysicalProject): an empty body. */
  function VisitProject(e: OperatorExpression, st: State): (r: Result<State, LoweringError>)
    requires e.op.PhysicalProject?
    ensures r == Ok(st)
    decreases e, 0
  {
    Ok(st)
  }

  /** The visitors with empty bodies among the joins: every join but the
      inner nested-loop one (and the scalar operators, which have no visitor
      of their own). */
  function VisitNothing(e: OperatorExpression, st: State): (r: Result<State, LoweringError>)
    requires !e.op.PhysicalScan? && !e.op.PhysicalComputeExprs? && !e.op.PhysicalFilter? && !e.op.PhysicalInnerNLJoin?
    requires !e.op.PhysicalProject?
    ensures r == Ok(st)
    decreases e, 0
  {
    Ok(st)
  }

  /** ConvertOpExpression: lowers the tree with a fresh transformer and
      returns the output plan (null when nothing was built). */
  function ConvertOpExpression(e: OperatorExpression): (r: Result<Option<Plan>, LoweringError>)
    ensures r.Ok? <==> VisitOpExpression(e, InitialState()).Ok?
    ensures r.Ok? && (e.op.PhysicalScan? || e.op.PhysicalComputeExprs? || e.op.PhysicalFilter?) ==> r.value.Some?
    ensures r.Ok? && !(e.op.PhysicalScan? || e.op.PhysicalComputeExprs? || e.op.PhysicalFilter?) ==> r.value == None
  {
    match VisitOpExpression(e, InitialState())
    case Err(err) => Err(err)
    case Ok(st) => Ok(st.outputPlan)
  }

  // ---------------------------------------------------------------------
  // Properties of the lowering
  // ---------------------------------------------------------------------

  /** The left/right column lists a visit starts from never influence its
      outcome: only the incoming plan and output columns do. This is why
      saving and restoring them around each visit changes nothing. */
  lemma {:induction false} LoweringIgnoresLeftRight(e: OperatorExpression, st1: State, st2: State)
    requires st1.outputPlan == st2.outputPlan && st1.outputColumns == st2.outputColumns
    ensures VisitOpExpression(e, st1).Ok? == VisitOpExpression(e, st2).Ok?
    ensures VisitOpExpression(e, st1).Err? ==> VisitOpExpression(e, st1) == VisitOpExpression(e, st2)
    ensures VisitOpExpression(e, st1).Ok? ==>
      && VisitOpExpression(e, st1).value.outputPlan == VisitOpExpression(e, st2).value.outputPlan
      && VisitOpExpression(e, st1).value.outputColumns == VisitOpExpression(e, st2).value.outputColumns
    decreases e
  {
    if (e.op.PhysicalComputeExprs? || e.op.PhysicalFilter?) && |e.children| == 2 {
      LoweringIgnoresLeftRight(e.children[0], st1, st2);
    }
  }

  /** Every column of the scans in a tree. */
  function ScanColumns(e: OperatorExpression): set<Column>
    decreases e
  {
    (if e.op.PhysicalScan? then set c | c in e.op.columns else {})
    + (set i, c | 0 <= i < |e.children| && c in ScanColumns(e.children[i]) :: c)
  }

  /** Lowering never invents columns: each output column was already an
      output column before, or is listed by a scan of the tree. */
  lemma {:induction false} OutputColumnsComeFromScans(e: OperatorExpression, st: State)
    ensures VisitOpExpression(e, st).Ok? ==>
      forall c :: c in VisitOpExpression(e, st).value.outputColumns ==> c in st.outputColumns || c in ScanColumns(e)
    decreases e
  {
    if e.op.PhysicalFilter? && |e.children| == 2 {
      OutputColumnsComeFromScans(e.children[0], st);
      forall c | c in ScanColumns(e.children[0])
        ensures c in ScanColumns(e)
      {
        assert 0 <= 0 < |e.children|;
      }
    }
  }

  /** A projection over a filter over a scan of table 7 with the columns a,
      b, c (index oids 0, 1, 2) and two target expressions lowers to a
      projection with targets at positions 0 and 1, whose only child is a
      table-less scan carrying the filter's (null) predicate, whose only
      child is the scan of table 7 with column ids [0, 1, 2]. */
  lemma ProjectFilterScanScenario()
    ensures
      var a := TableColumn(1, 0, SchemaColumn("a", 4));
      var b := TableColumn(2, 1, SchemaColumn("b", 4));
      var c := TableColumn(3, 2, SchemaColumn("c", 4));
      var p1 := OperatorExpression(Scalar(1), []);
      var p2 := OperatorExpression(Scalar(2), []);
      var scan := OperatorExpression(PhysicalScan(7, [a, b, c]), [p1, p1]);
      var filter := OperatorExpression(PhysicalFilter, [scan, p2]);
      var targets := OperatorExpression(Scalar(3), [OperatorExpression(Scalar(4), [p1]), OperatorExpression(Scalar(5), [p2])]);
      var project := OperatorExpression(PhysicalComputeExprs, [filter, targets]);
      ConvertOpExpression(project) == Ok(Some(
        ProjectionPlan(ProjectInfo([Target(0, None), Target(1, None)]), [],
          [Some(SeqScanPlan(None, None, [],
            [Some(SeqScanPlan(Some(7), None, [0, 1, 2], []))]))])))
  {
    var a := TableColumn(1, 0, SchemaColumn("a", 4));
    var b := TableColumn(2, 1, SchemaColumn("b", 4));
    var c := TableColumn(3, 2, SchemaColumn("c", 4));
    var p1 := OperatorExpression(Scalar(1), []);
    var p2 := OperatorExpression(Scalar(2), []);
    var scan := OperatorExpression(PhysicalScan(7, [a, b, c]), [p1, p1]);
    var filter := OperatorExpression(PhysicalFilter, [scan, p2]);
    var targets := OperatorExpression(Scalar(3), [OperatorExpression(Scalar(4), [p1]), OperatorExpression(Scalar(5), [p2])]);
    var project := OperatorExpression(PhysicalComputeExprs, [filter, targets]);
    var st0 := InitialState();
    var ids := ColumnIndexOids([a, b, c]).value;
    assert |ids| == 3 && ids[0] == 0 && ids[1] == 1 && ids[2] == 2;
    assert ids == [0, 1, 2];
    var scanned := VisitOpExpression(scan, st0);
    assert scanned.Ok? && scanned.value.outputPlan == Some(SeqScanPlan(Some(7), None, [0, 1, 2], []));
    var filtered := VisitOpExpression(filter, st0);
    assert filtered.Ok? && filtered.value.outputPlan == Some(SeqScanPlan(None, None, [], [scanned.value.outputPlan]));
    var projected := VisitOpExpression(project, st0);
    assert projected.Ok?;
    var plan := projected.value.outputPlan.value;
    assert plan.children == [filtered.value.outputPlan];
    var tl := plan.projectInfo.targetList;
    assert |tl| == 2 && tl[0] == Target(0, None) && tl[1] == Target(1, None);
    assert tl == [Target(0, None), Target(1, None)];
  }
}
