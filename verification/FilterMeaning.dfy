/** What compiled filters select: SQL's reading of a condition on one cell, the
    meaning of each operator, and that compilation keeps it. */
module FilterMeaning {
  import opened Text
  import opened Query
  import opened FilterCompiler
  import LikePattern
  import QueryValidator

  /** How the database compares the values of a column's type: its order, its
      equality, and the case folding of ILIKE. Null stands for SQL's NULL. */
  datatype Comparison = Comparison(le: (Value, Value) -> bool, same: (Value, Value) -> bool, fold: char -> char)

  // ---- Conditions ----

  // Whether the condition is TRUE of the cell; a comparison with NULL never is.
  // A comparison with None by == or != is rendered as IS NULL or IS NOT NULL.
  predicate Selects(c: Condition, cell: Value, db: Comparison) {
    match c
    case IsNull => cell.Null?
    case IsNotNull => !cell.Null?
    case Equal(v) => if v.Null? then cell.Null? else !cell.Null? && db.same(cell, v)
    case NotEqual(v) => !cell.Null? && (v.Null? || !db.same(cell, v))
    case AtLeast(v) => !cell.Null? && !v.Null? && db.le(v, cell)
    case AtMost(v) => !cell.Null? && !v.Null? && db.le(cell, v)
    case InList(items) => !cell.Null? && exists i :: 0 <= i < |items| && !items[i].Null? && db.same(cell, items[i])
    case Both(low, high) => !cell.Null? && !low.Null? && !high.Null? && db.le(low, cell) && db.le(cell, high)
    case ILike(pattern) => cell.Str? && LikePattern.Like(cell.s, pattern, db.fold)
  }

  // A row: the cell of each (family, field) column.
  type Cells = (Family, string) -> Value

  // WHERE keeps a row for which every condition is TRUE.
  predicate Keeps(conditions: seq<Expression>, row: Cells, db: Comparison) {
    forall i :: 0 <= i < |conditions| ==> Selects(conditions[i].condition, row(conditions[i].family, conditions[i].field), db)
  }

  // ---- Operators ----

  // low <= cell, where nothing compares with NULL.
  predicate NotBelow(cell: Value, low: Value, db: Comparison) {
    cell != Null && low != Null && db.le(low, cell)
  }

  predicate NotAbove(cell: Value, high: Value, db: Comparison) {
    cell != Null && high != Null && db.le(cell, high)
  }

  // What a user means by a clause on a cell.
  predicate Holds(c: FilterClause, cell: Value, db: Comparison) {
    match c.operator
    case IS_NULL => cell == Null
    case NOT_NULL => cell != Null
    case EQ => if c.value == Null then cell == Null else cell != Null && db.same(cell, c.value)
    case NE => cell != Null && (c.value == Null || !db.same(cell, c.value))
    case GTE => NotBelow(cell, c.value, db)
    case LTE => NotAbove(cell, c.value, db)
    case IN => c.value.List? && cell != Null && exists v :: v in c.value.items && v != Null && db.same(cell, v)
    case BETWEEN => c.value.List? && |c.value.items| == 2 && NotBelow(cell, c.value.items[0], db) && NotAbove(cell, c.value.items[1], db)
    case CONTAINS => c.value.Str? && cell.Str? && IsSubstring(LikePattern.Folded(c.value.s, db.fold), LikePattern.Folded(cell.s, db.fold))
  }

  predicate MeetsAll(filters: seq<FilterClause>, family: Family, row: Cells, db: Comparison) {
    forall c :: c in filters ==> Holds(c, row(family, c.field), db)
  }

  // ---- Compilation keeps the meaning ----

  /** A compiled CONTAINS keeps exactly the cells in which the user's text
      occurs, up to the database's case folding. */
  lemma CompiledContains(family: Family, c: FilterClause, registry: Registry, columns: Columns, cell: Value, db: Comparison)
    requires c.operator.CONTAINS? && CompileFilterExpression(family, c, registry, columns).Ok?
    ensures Selects(CompileFilterExpression(family, c, registry, columns).value.condition, cell, db) <==>
              cell.Str? && IsSubstring(LikePattern.Folded(c.value.s, db.fold), LikePattern.Folded(cell.s, db.fold))
  {
    if cell.Str? {
      LikePattern.EscapedPatternMatchesSubstrings(c.value.s, cell.s, db.fold);
    }
  }

  /** A clause that compiles gives a condition on its own column that selects a
      cell exactly when the clause's operator holds of it. */
  lemma CompiledClauseSelects(family: Family, c: FilterClause, registry: Registry, columns: Columns, cell: Value, db: Comparison)
    requires CompileFilterExpression(family, c, registry, columns).Ok?
    ensures var e := CompileFilterExpression(family, c, registry, columns).value;
      e.family == family && e.field == c.field && (Selects(e.condition, cell, db) <==> Holds(c, cell, db))
  {
    if c.operator.CONTAINS? {
      CompiledContains(family, c, registry, columns, cell, db);
    } else if c.operator.IN? {
      var items := c.value.items;
      assert forall v :: v in items <==> exists i :: 0 <= i < |items| && items[i] == v;
    }
  }

  lemma {:induction false} CompiledInOrder(family: Family, filters: seq<FilterClause>, registry: Registry, columns: Columns, i: nat)
    requires CompileFilters(family, filters, registry, columns).Ok? && i < |filters|
    ensures |CompileFilters(family, filters, registry, columns).value| == |filters|
    ensures CompileFilterExpression(family, filters[i], registry, columns) == Ok(CompileFilters(family, filters, registry, columns).value[i])
  {
    if |filters| > 1 {
      CompiledInOrder(family, filters[1..], registry, columns, if i == 0 then 0 else i - 1);
    }
  }

  /** Compiled filters are one condition per clause, in order, and a row is kept
      by all of them exactly when it meets every clause. */
  lemma CompiledFiltersSelect(family: Family, filters: seq<FilterClause>, registry: Registry, columns: Columns, row: Cells, db: Comparison)
    requires CompileFilters(family, filters, registry, columns).Ok?
    ensures var conditions := CompileFilters(family, filters, registry, columns).value;
      && |conditions| == |filters|
      && (forall i :: 0 <= i < |filters| ==> conditions[i].family == family && conditions[i].field == filters[i].field)
      && (Keeps(conditions, row, db) <==> MeetsAll(filters, family, row, db))
  {
    var conditions := CompileFilters(family, filters, registry, columns).value;
    if filters != [] { CompiledInOrder(family, filters, registry, columns, 0); }
    forall i | 0 <= i < |filters|
      ensures conditions[i].family == family && conditions[i].field == filters[i].field
      ensures Selects(conditions[i].condition, row(family, filters[i].field), db) <==> Holds(filters[i], row(family, filters[i].field), db)
    {
      CompiledInOrder(family, filters, registry, columns, i);
      CompiledClauseSelects(family, filters[i], registry, columns, row(family, filters[i].field), db);
    }
    if Keeps(conditions, row, db) {
      forall c | c in filters ensures Holds(c, row(family, c.field), db) {
        var i :| 0 <= i < |filters| && filters[i] == c;
      }
    }
  }

  /** For a validated query on one family: it compiles, and the rows it reads are
      exactly those that meet every clause. */
  lemma ValidatedQuerySelects(spec: QuerySpec, registry: Registry, upper: string -> string, columns: Columns, family: Family,
                              row: Cells, db: Comparison)
    requires QueryValidator.Issues(spec, registry, upper) == []
    requires !spec.intent.UNSUPPORTED_PREDICTION? && spec.families == [family]
    requires ContainsOnlyOnStrings(registry) && ColumnsResolve(registry, columns)
    ensures var compiled := CompileFilters(family, PlanOf(spec).filters, registry, columns);
      compiled.Ok? && (Keeps(compiled.value, row, db) <==> MeetsAll(spec.filters, family, row, db))
  {
    ValidatedSingleFamilyCompiles(spec, registry, upper, columns, family);
    CompiledFiltersSelect(family, spec.filters, registry, columns, row, db);
  }
}
