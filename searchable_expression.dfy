/**
 * SearchableExpression: a condition `{{alias}}.[[key]] IN ids` that limits a
 * query to identifiers found by a search, qualified by the alias the query's
 * own FROM clause gives its table.
 */
module Searchable {
  import opened Wrappers
  import opened AliasPattern

  /** A key of the `from` array: an explicit alias, or a list position. */
  datatype Key = StrKey(name: string) | IntKey(index: int)

  /** The record class a query is built for: its default table name and its searchable key column. */
  datatype ModelClass = ModelClass(tableName: string, searchableKey: string)

  /** The parts of the query the expression reads; `from` keeps its insertion order. */
  datatype Query = Query(modelClass: ModelClass, from: Option<seq<(Key, string)>>)

  datatype IdValue = IntId(i: int) | StrId(s: string)

  /** The IN condition handed to the query builder: column text, operator, values. */
  datatype InCondition = InCondition(column: string, operator: string, values: seq<IdValue>)

  /** The two configuration errors init() raises. */
  datatype ConfigError = IdsNotSet | QueryNotSet

  /** PHP's `empty($query->from)`: unset or an empty array. */
  predicate FromIsEmpty(from: Option<seq<(Key, string)>>) {
    from.None? || from.value == []
  }

  /** The first entry of `from` is an alias => table pair. */
  predicate HasExplicitAlias(q: Query) {
    !FromIsEmpty(q.from) && q.from.value[0].0.StrKey?
  }

  /** The alias of a raw table name: the pattern's last token, or the whole name. */
  function AliasOf(raw: string): string
  {
    match TrailingAlias(raw)
    case Some(tok) => tok
    case None => raw
  }

  /**
   * getTableNameAndAlias(): only the first `from` entry is read; the table
   * name returned is always the whole raw entry (or the default table name).
   */
  function TableNameAndAlias(q: Query): (r: (string, string))
    ensures FromIsEmpty(q.from) ==> r.0 == q.modelClass.tableName
    ensures !FromIsEmpty(q.from) ==> r.0 == q.from.value[0].1
  {
    if FromIsEmpty(q.from) then
      (q.modelClass.tableName, AliasOf(q.modelClass.tableName))
    else
      match q.from.value[0]
      case (StrKey(alias), tableName) => (tableName, alias)
      case (IntKey(_), tableName) => (tableName, AliasOf(tableName))
  }

  /** The column text `{{alias}}.[[key]]`. */
  function QualifiedColumn(alias: string, key: string): string
  {
    "{{" + alias + "}}.[[" + key + "]]"
  }

  class SearchableExpression {
    var query: Option<Query>
    var ids: seq<IdValue>

    /** Configuration of the public properties, before init() runs. */
    constructor Configure(query: Option<Query>, ids: seq<IdValue>)
      ensures this.query == query && this.ids == ids
    {
      this.query := query;
      this.ids := ids;
    }

    /** The state init() accepts. */
    ghost predicate Valid()
      reads this
    {
      ids != [] && query.Some?
    }

    /** init(): the ids check runs first, then the query check. */
    method Init() returns (r: Outcome<ConfigError>)
      ensures ids == [] ==> r == Fail(IdsNotSet)
      ensures ids != [] && query.None? ==> r == Fail(QueryNotSet)
      ensures r == Pass <==> Valid()
    {
      if ids == [] {
        return Fail(IdsNotSet);
      }
      if query.None? {
        return Fail(QueryNotSet);
      }
      return Pass;
    }

    /** getCondition(): the key column of the query's table, qualified by its alias, IN the ids. */
    function GetCondition(): (c: InCondition)
      reads this
      requires query.Some?
      ensures c.operator == "IN" && c.values == ids
      ensures c.column == QualifiedColumn(TableNameAndAlias(query.value).1, query.value.modelClass.searchableKey)
    {
      var alias := TableNameAndAlias(query.value).1;
      InCondition(QualifiedColumn(alias, query.value.modelClass.searchableKey), "IN", ids)
    }
  }

  /**
   * Building the object: the properties are configured, then init() runs;
   * an object is handed out only when init() passes.
   */
  method Create(query: Option<Query>, ids: seq<IdValue>) returns (r: Result<SearchableExpression, ConfigError>)
    ensures ids == [] ==> r == Failure(IdsNotSet)
    ensures ids != [] && query.None? ==> r == Failure(QueryNotSet)
    ensures r.Success? <==> ids != [] && query.Some?
    ensures r.Success? ==> fresh(r.value) && r.value.query == query && r.value.ids == ids && r.value.Valid()
  {
    var e := new SearchableExpression.Configure(query, ids);
    var outcome := e.Init();
    match outcome
    case Pass => r := Success(e);
    case Fail(err) => r := Failure(err);
  }

  // ---------------------------------------------------------------------
  // Alias resolution

  /** A raw table name ending in whitespace and a valid token has that token as alias. */
  lemma TrailingTokenIsAlias(q: Query, p: string, ws: string, tok: string)
    requires !HasExplicitAlias(q)
    requires Matches(TableNameAndAlias(q).0, p, ws, tok)
    ensures TableNameAndAlias(q).1 == tok
  {
    TrailingAliasComplete(TableNameAndAlias(q).0, p, ws, tok);
  }

  /** A raw table name the pattern does not match is its own alias. */
  lemma UnmatchedNameIsAlias(q: Query)
    requires !HasExplicitAlias(q)
    requires forall p, ws, tok :: !Matches(TableNameAndAlias(q).0, p, ws, tok)
    ensures TableNameAndAlias(q).1 == TableNameAndAlias(q).0
  {
    var raw := TableNameAndAlias(q).0;
    if TrailingAlias(raw).Some? {
      TrailingAliasSound(raw);
    }
  }

  /** The alias resolved for a raw table name is one of exactly two things. */
  lemma RawAliasCases(q: Query)
    requires !HasExplicitAlias(q)
    ensures var (name, alias) := TableNameAndAlias(q);
      (alias == name && forall p, ws, tok :: !Matches(name, p, ws, tok))
      || (exists p, ws :: Matches(name, p, ws, alias))
  {
    var name := TableNameAndAlias(q).0;
    if TrailingAlias(name).Some? {
      TrailingAliasSound(name);
    } else {
      TrailingAliasNone(name);
    }
  }

  /** An alias => table first entry is returned as it is, with no parsing, even for the alias "". */
  lemma ExplicitAliasReturned(m: ModelClass, alias: string, table: string, rest: seq<(Key, string)>)
    ensures TableNameAndAlias(Query(m, Some([(StrKey(alias), table)] + rest))) == (table, alias)
  {
  }

  /** Entries after the first never change the result. */
  lemma OnlyFirstEntryConsulted(m: ModelClass, first: (Key, string), rest1: seq<(Key, string)>, rest2: seq<(Key, string)>)
    ensures TableNameAndAlias(Query(m, Some([first] + rest1))) == TableNameAndAlias(Query(m, Some([first] + rest2)))
  {
  }

  /** A first entry with an integer key acts as if its value were the default table name. */
  lemma IntKeyActsAsDefaultTable(m: ModelClass, n: int, table: string, rest: seq<(Key, string)>)
    ensures TableNameAndAlias(Query(m, Some([(IntKey(n), table)] + rest)))
         == TableNameAndAlias(Query(ModelClass(table, m.searchableKey), None))
  {
  }

  /** The column text determines the alias it was built from. */
  lemma {:induction false} QualifiedColumnDeterminesAlias(a1: string, a2: string, key: string)
    requires QualifiedColumn(a1, key) == QualifiedColumn(a2, key)
    ensures a1 == a2
  {
    var c := QualifiedColumn(a1, key);
    assert |a1| == |a2|;
    assert c[2..2 + |a1|] == a1;
    assert QualifiedColumn(a2, key)[2..2 + |a2|] == a2;
  }

  /** Two expressions with equal queries and ids produce equal conditions. */
  lemma ConditionDependsOnlyOnState(e1: SearchableExpression, e2: SearchableExpression)
    requires e1.query.Some? && e1.query == e2.query && e1.ids == e2.ids
    ensures e1.GetCondition() == e2.GetCondition()
  {
  }

  // ---------------------------------------------------------------------
  // Worked examples

  lemma ExampleDefaultTable()
    ensures TableNameAndAlias(Query(ModelClass("user", "id"), None)) == ("user", "user")
  {
    UnmatchedNameIsAlias(Query(ModelClass("user", "id"), None));
  }

  lemma ExampleTrailingAlias()
    ensures TableNameAndAlias(Query(ModelClass("user", "id"), Some([(IntKey(0), "user_table t")])))
         == ("user_table t", "t")
  {
    TrailingAliasComplete("user_table t", "user_table", " ", "t");
  }

  lemma ExampleBareTable()
    ensures TableNameAndAlias(Query(ModelClass("user", "id"), Some([(IntKey(0), "user_table")])))
         == ("user_table", "user_table")
  {
    TokenStartAt("user_table", 10, 0);
  }

  lemma ExampleBracedTable()
    ensures AliasOf("{{%user}}") == "{{%user}}"
  {
    TokenStartAt("{{%user}}", 9, 0);
  }

  lemma ExamplePrefixedBracedTable()
    ensures AliasOf("x {{%user}}") == "x {{%user}}"
  {
    var s := "x {{%user}}";
    TokenStartAt(s, 11, 2);
    assert s[2..11] == "{{%user}}";
    assert !IsWordChar(s[2..11][0]);
    assert !IsWordChar(s[2..11][2..7][0]);
  }

  lemma ExampleInvalidToken()
    ensures AliasOf("user u-x") == "user u-x"
  {
    var s := "user u-x";
    TokenStartAt(s, 8, 5);
    assert s[5..8] == "u-x";
    assert !IsWordChar(s[5..8][1]);
  }

  lemma ExampleDefaultCondition(e: SearchableExpression)
    requires e.query == Some(Query(ModelClass("user", "id"), None))
    requires e.ids == [IntId(1), IntId(2), IntId(3)]
    ensures e.GetCondition() == InCondition("{{user}}.[[id]]", "IN", [IntId(1), IntId(2), IntId(3)])
  {
    ExampleDefaultTable();
  }

  lemma ExampleAliasedCondition(e: SearchableExpression)
    requires e.query == Some(Query(ModelClass("user", "uid"), Some([(StrKey("u"), "user_table")])))
    requires e.ids == [StrId("a"), StrId("b")]
    ensures e.GetCondition() == InCondition("{{u}}.[[uid]]", "IN", [StrId("a"), StrId("b")])
  {
  }
}
