/** The query contract: QuerySpec, its clauses, and the field registry. */
module Query {
  import opened Text

  datatype Intent = LOOKUP_PRODUCT | FILTER | FILTER_AND_RANK | COMPARE_PRODUCTS | CROSS_FAMILY_SEARCH
                  | RELATION_SEARCH | AGGREGATE | EXPLAIN_TERM | UNSUPPORTED_PREDICTION

  datatype Family = BOND_KR | ETF_KR | ETF_GLOBAL | FUND_PUBLIC

  datatype Operator = EQ | NE | IN | CONTAINS | GTE | LTE | BETWEEN | IS_NULL | NOT_NULL

  datatype Direction = ASC | DESC

  // A JSON value as an LLM may put it into a filter; Object stands for any dict.
  datatype Value = Null | Str(s: string) | Num(n: real) | Bool(b: bool) | List(items: seq<Value>) | Object

  datatype FilterClause = FilterClause(field: string, operator: Operator, value: Value)
  datatype Preference = Preference(field: string, direction: Direction, priority: Option<int>)
  datatype SortClause = SortClause(field: string, direction: Direction)
  datatype RelationType = HOLDS | SUBSIDIARY_OF | AFFILIATE_OF | TRACKS_INDEX | BELONGS_TO_THEME

  datatype RelationshipFilter = RelationshipFilter(relation: RelationType, target: string)

  datatype QuerySpec = QuerySpec(
    intent: Intent,
    families: seq<Family>,
    entities: seq<string>,
    filters: seq<FilterClause>,
    relationshipFilters: seq<RelationshipFilter>,
    metrics: seq<string>,
    preferences: seq<Preference>,
    sort: seq<SortClause>,
    limit: nat)

  datatype ValueType = StringType | DecimalType | IntegerType | DateType | BooleanType

  datatype FieldDefinition = FieldDefinition(
    valueType: ValueType,
    families: set<Family>,
    operators: set<Operator>,
    filterable: bool,
    rankBlocked: bool)

  type Registry = map<string, FieldDefinition>

  predicate SupportsFamily(registry: Registry, field: string, family: Family) {
    field in registry && family in registry[field].families
  }
}
