/**
 * The SOQL query grammar: the overrides that turn Laravel's generic SQL
 * grammar into one that emits Salesforce Object Query Language.
 *
 * Everything the grammar calls from outside itself (the inherited Laravel
 * Grammar methods, the English pluraliser and the live Salesforce field
 * lookup) is a field of `Collaborators`, so that every property below holds
 * whatever those collaborators do.
 */
module SOQLGrammar {
  import opened Strings

  // ---------------------------------------------------------------------------
  // Data model
  // ---------------------------------------------------------------------------

  /**
   * The part of Laravel's query builder this grammar reads itself: whether the
   * query is `distinct`. The rest of the builder state is consumed only by the
   * inherited renderers, which are opaque here.
   */
  datatype Query = Query(distinct: bool)

  /** One basic `where` entry of the builder: column, operator, value and the boolean that links it. */
  datatype Where = Where(column: string, operator: string, value: string, boolean: string)

  /** One join of the builder; only the related table is read. */
  datatype JoinClause = JoinClause(table: string)

  /** The builder's aggregate: its function name (`count`, `sum`, ...) and its columns. */
  datatype Aggregate = Aggregate(func: string, columns: seq<string>)

  /** The code this grammar calls but does not contain. */
  datatype Collaborators = Collaborators(
    /** `parent::whereBasic`, Laravel's standard-SQL rendering of a basic where. */
    parentWhereBasic: (Query, Where) -> string,
    /** The inherited `wrap`. */
    wrap: string -> string,
    /** The inherited `wrapTable`. */
    wrapTable: string -> string,
    /** The inherited `columnize`. */
    columnize: seq<string> -> string,
    /** The inherited `removeLeadingBoolean`. */
    removeLeadingBoolean: string -> string,
    /** Laravel's `str_plural`. */
    strPlural: string -> string,
    /** `ServiceProvider::objectFields(table, fields)`, the Salesforce metadata lookup. */
    objectFields: (string, seq<string>) -> seq<string>)

  // ---------------------------------------------------------------------------
  // Clause order
  // ---------------------------------------------------------------------------

  /** The components of a select statement, in the order the inherited compiler emits them. */
  const SELECT_COMPONENTS: seq<string> :=
    ["aggregate", "columns", "joins", "from", "wheres", "groups", "havings", "orders", "limit", "offset", "lock"]

  /** `a` is emitted before `b`. */
  predicate Precedes(a: string, b: string)
  {
    exists i, j :: 0 <= i < j < |SELECT_COMPONENTS| && SELECT_COMPONENTS[i] == a && SELECT_COMPONENTS[j] == b
  }

  /**
   * Eleven distinct components, the aggregate first and the lock last, with
   * the relationship subqueries between the columns and `from`, and the
   * filters after `from`.
   */
  lemma SelectComponentsOrder()
    ensures |SELECT_COMPONENTS| == 11
    ensures forall i, j :: 0 <= i < j < |SELECT_COMPONENTS| ==> SELECT_COMPONENTS[i] != SELECT_COMPONENTS[j]
    ensures SELECT_COMPONENTS[0] == "aggregate" && SELECT_COMPONENTS[10] == "lock"
    ensures Precedes("columns", "joins") && Precedes("joins", "from") && Precedes("from", "wheres")
    ensures Precedes("wheres", "groups") && Precedes("groups", "havings") && Precedes("havings", "orders")
    ensures Precedes("orders", "limit") && Precedes("limit", "offset")
  {
    assert SELECT_COMPONENTS[1] == "columns" && SELECT_COMPONENTS[2] == "joins" && SELECT_COMPONENTS[3] == "from";
    assert SELECT_COMPONENTS[4] == "wheres" && SELECT_COMPONENTS[5] == "groups" && SELECT_COMPONENTS[6] == "havings";
    assert SELECT_COMPONENTS[7] == "orders" && SELECT_COMPONENTS[8] == "limit" && SELECT_COMPONENTS[9] == "offset";
  }

  // ---------------------------------------------------------------------------
  // Identifiers
  // ---------------------------------------------------------------------------

  /** SOQL has no quoted identifiers, so a value is emitted as it is. */
  function WrapValue(value: string): (r: string)
    ensures r == value
  {
    value
  }

  /**
   * Deletes every backtick. The result has none, is a subsequence of the
   * input, and is exactly as long as the input without its backticks.
   */
  function UnWrapValue(value: string): (r: string)
    ensures '`' !in r
    ensures IsSubsequence(r, value)
    ensures |r| == |value| - Count(value, '`')
  {
    EraseIsSubsequence(value, '`');
    ReplaceLength(value, '`', "");
    Replace(value, '`', "")
  }

  /** Unwrapping is idempotent, and unwrapping a wrapped value is just unwrapping it. */
  lemma UnWrapValueIdempotent(value: string)
    ensures UnWrapValue(UnWrapValue(value)) == UnWrapValue(value)
    ensures UnWrapValue(WrapValue(value)) == UnWrapValue(value)
  {
    ReplaceAbsent(UnWrapValue(value), '`', "");
  }

  /**
   * The output of `UnWrapValue` is pinned down by its contract: the one
   * backtick-free subsequence of the input that drops nothing else.
   */
  lemma UnWrapValueCharacterised(value: string, t: string)
    requires '`' !in t && IsSubsequence(t, value) && |t| == |value| - Count(value, '`')
    ensures t == UnWrapValue(value)
  {
    EraseUnique(t, value, '`');
  }

  // ---------------------------------------------------------------------------
  // Basic where
  // ---------------------------------------------------------------------------

  /** The operator, lower-cased, contains "not like"; such an operator has at least eight characters. */
  predicate IsNotLike(operator: string)
    ensures IsNotLike(operator) ==> |operator| >= 8
  {
    Contains(Lower(operator), "not like")
  }

  /** The rendering used for a negated LIKE: SOQL puts `not` in front of the whole comparison. */
  function NegatedLike(g: Collaborators, where: Where): (r: string)
    ensures |r| >= 12 && r[..5] == "(not " && r[|r| - 1] == ')'
  {
    "(not " + g.wrap(where.column) + " like " + g.wrap(where.value) + ")"
  }

  /** Wraps every `?` placeholder in single quotes. */
  function QuotePlaceholders(s: string): (r: string)
    ensures '`' !in s ==> '`' !in r
    ensures forall x :: x in r ==> x in s || x == '\''
    ensures Count(r, '?') == Count(s, '?')
    ensures |r| == |s| + 2 * Count(s, '?')
  {
    assert Count("'?'", '?') == 1;
    ReplaceKeepsCount(s, '?', "'?'");
    ReplaceLength(s, '?', "'?'");
    Replace(s, '?', "'?'")
  }

  /**
   * Reference inverse of `QuotePlaceholders`: reading left to right, each
   * `'?'` becomes `?` again and every other character is kept.
   */
  function UnquotePlaceholders(s: string): string
  {
    if |s| >= 3 && s[..3] == "'?'" then "?" + UnquotePlaceholders(s[3..])
    else if s == [] then []
    else [s[0]] + UnquotePlaceholders(s[1..])
  }

  /** Quoting loses nothing: every `?` becomes `'?'` and nothing else changes. */
  lemma {:induction false} UnquoteQuote(s: string)
    ensures UnquotePlaceholders(QuotePlaceholders(s)) == s
  {
    if s != [] {
      var rest := Replace(s[1..], '?', "'?'");
      UnquoteQuote(s[1..]);
      if s[0] == '?' {
        var q := "'?'" + rest;
        assert QuotePlaceholders(s) == q;
        assert q[..3] == "'?'" && q[3..] == rest;
      } else {
        var q := [s[0]] + rest;
        assert QuotePlaceholders(s) == q;
        assert q[1..] == rest;
        if |q| >= 3 {
          assert s[1..] != [];
          assert rest[0] == (if s[1] == '?' then '\'' else s[1]);
          assert q[..3] != "'?'" by { assert q[1] == rest[0] && q[1] != '?'; }
        }
      }
    } else {
      assert QuotePlaceholders(s) == [];
    }
  }

  /** Quoting is not idempotent: a second pass quotes the placeholders again. */
  lemma QuoteTwiceDiffers(s: string)
    requires '?' in s
    ensures QuotePlaceholders(QuotePlaceholders(s)) != QuotePlaceholders(s)
  {
  }

  /**
   * `whereBasic`. A negated LIKE is rendered by this grammar alone; any other
   * operator is rendered by the parent and repaired: backticks removed, then
   * every placeholder quoted, so the result has no backtick, keeps exactly the
   * parent's placeholders and is two characters longer for each of them.
   */
  function WhereBasic(g: Collaborators, query: Query, where: Where): (r: string)
    ensures IsNotLike(where.operator) ==>
      r == "(not " + g.wrap(where.column) + " like " + g.wrap(where.value) + ")"
    ensures !IsNotLike(where.operator) ==>
      var stripped := UnWrapValue(g.parentWhereBasic(query, where));
      && '`' !in r
      && Count(r, '?') == Count(stripped, '?')
      && |r| == |stripped| + 2 * Count(stripped, '?')
      && UnquotePlaceholders(r) == stripped
  {
    if IsNotLike(where.operator) then
      NegatedLike(g, where)
    else
      var stripped := UnWrapValue(g.parentWhereBasic(query, where));
      UnquoteQuote(stripped);
      QuotePlaceholders(stripped)
  }

  /** A negated LIKE never consults the parent renderer. */
  lemma WhereBasicNotLikeIgnoresParent(g: Collaborators, parent: (Query, Where) -> string, query: Query, where: Where)
    requires IsNotLike(where.operator)
    ensures WhereBasic(g, query, where) == WhereBasic(g.(parentWhereBasic := parent), query, where)
  {
  }

  /** Whatever the case of its letters, an operator spelled "not like" takes the negated path. */
  lemma NotLikeOperators()
    ensures IsNotLike("not like") && IsNotLike("NOT LIKE") && IsNotLike("Not Like")
  {
    assert OccursAt(Lower("not like"), "not like", 0);
    assert OccursAt(Lower("NOT LIKE"), "not like", 0);
    assert OccursAt(Lower("Not Like"), "not like", 0);
  }

  /** A plain LIKE and an equality take the parent's path. */
  lemma OtherOperators()
    ensures !IsNotLike("like") && !IsNotLike("=")
  {
  }

  /** An operator with "not like" anywhere in it, whatever surrounds it, takes the negated path. */
  lemma IsNotLikeExtended(operator: string, before: string, after: string)
    requires IsNotLike(operator)
    ensures IsNotLike(before + operator + after)
  {
    LowerAppend(before, operator);
    LowerAppend(before + operator, after);
    ContainsExtended(Lower(operator), "not like", Lower(before), Lower(after));
  }

  /** Case does not matter to the choice of path. */
  lemma IsNotLikeCaseInsensitive(operator: string)
    ensures IsNotLike(operator) <==> IsNotLike(Lower(operator))
  {
    LowerIdempotent(operator);
  }

  // ---------------------------------------------------------------------------
  // Joins as relationship subqueries
  // ---------------------------------------------------------------------------

  /** The relationship name of a join: the pluralised, wrapped table with backticks removed. */
  function RelationshipPath(g: Collaborators, table: string): (r: string)
    ensures '`' !in r
  {
    UnWrapValue(g.strPlural(g.wrapTable(table)))
  }

  /** The SOQL text of a relationship subquery. */
  function Subquery(columns: string, path: string): (r: string)
    ensures |r| > 0 && r[0] == ',' && r[|r| - 1] == ')'
  {
    ", (select " + columns + " from " + path + ")"
  }

  /** One join: a relationship subquery over every field of the related object. */
  function JoinFragment(g: Collaborators, join: JoinClause): (r: string)
    ensures |r| > 0 && r[0] == ',' && r[|r| - 1] == ')'
  {
    var columns := Join(",", g.objectFields(join.table, ["*"]));
    var tableP := RelationshipPath(g, join.table);
    var text := Subquery(columns, tableP);
    assert !IsTrimChar(text[0]) && !IsTrimChar(text[|text| - 1]);
    Trim(text)
  }

  /**
   * The `trim` of a join fragment never removes anything, since the text
   * starts with a comma and ends with a closing parenthesis.
   */
  lemma JoinFragmentIsSubquery(g: Collaborators, join: JoinClause)
    ensures JoinFragment(g, join) == Subquery(Join(",", g.objectFields(join.table, ["*"])), RelationshipPath(g, join.table))
  {
  }

  /** `compileJoins`: the fragments of the joins, in order, separated by single spaces. */
  function CompileJoins(g: Collaborators, joins: seq<JoinClause>): (r: string)
    ensures joins == [] ==> r == ""
  {
    Join(" ", Fragments(g, joins))
  }

  /** The per-join fragments, one for each join. */
  function Fragments(g: Collaborators, joins: seq<JoinClause>): (r: seq<string>)
    ensures |r| == |joins|
  {
    seq(|joins|, i requires 0 <= i < |joins| => JoinFragment(g, joins[i]))
  }

  /** A single join compiles to its own fragment. */
  lemma CompileJoinsSingle(g: Collaborators, join: JoinClause)
    ensures CompileJoins(g, [join]) == JoinFragment(g, join)
  {
  }

  /**
   * Compiling two runs of joins one after the other is compiling each and
   * putting one space between them.
   */
  lemma CompileJoinsConcat(g: Collaborators, xs: seq<JoinClause>, ys: seq<JoinClause>)
    requires xs != [] && ys != []
    ensures CompileJoins(g, xs + ys) == CompileJoins(g, xs) + " " + CompileJoins(g, ys)
  {
    FragmentsAppend(g, xs, ys);
    JoinConcat(" ", Fragments(g, xs), Fragments(g, ys));
  }

  /** The fragments of a concatenation of joins are the two runs of fragments, in order. */
  lemma FragmentsAppend(g: Collaborators, xs: seq<JoinClause>, ys: seq<JoinClause>)
    ensures Fragments(g, xs + ys) == Fragments(g, xs) + Fragments(g, ys)
  {
    var fx, fy, fxy := Fragments(g, xs), Fragments(g, ys), Fragments(g, xs + ys);
    forall i | 0 <= i < |fxy| ensures fxy[i] == (fx + fy)[i] {
      if i < |xs| {
        assert (xs + ys)[i] == xs[i];
      } else {
        assert (xs + ys)[i] == ys[i - |xs|];
      }
    }
  }


  /** Adding a join at the end appends a space and its fragment. */
  lemma CompileJoinsSnoc(g: Collaborators, joins: seq<JoinClause>, join: JoinClause)
    requires joins != []
    ensures CompileJoins(g, joins + [join]) == CompileJoins(g, joins) + " " + JoinFragment(g, join)
  {
    CompileJoinsConcat(g, joins, [join]);
  }

  /**
   * The length of the compiled joins: the fragments' lengths plus one space
   * between each two of them, so no other text is added.
   */
  lemma CompileJoinsLength(g: Collaborators, joins: seq<JoinClause>)
    requires joins != []
    ensures |CompileJoins(g, joins)| == TotalLength(Fragments(g, joins)) + |joins| - 1
  {
    JoinLength(" ", Fragments(g, joins));
  }

  // ---------------------------------------------------------------------------
  // Where clause
  // ---------------------------------------------------------------------------

  /**
   * `concatenateWhereClauses`: the keyword `where`, a space, and the compiled
   * wheres joined by spaces with their leading boolean removed.
   */
  function ConcatenateWhereClauses(g: Collaborators, query: Query, sql: seq<string>): (r: string)
    ensures |r| >= 6 && r[..6] == "where "
    ensures r[6..] == g.removeLeadingBoolean(Join(" ", sql))
  {
    var conjunction := "where";
    conjunction + " " + g.removeLeadingBoolean(Join(" ", sql))
  }

  // ---------------------------------------------------------------------------
  // Aggregates
  // ---------------------------------------------------------------------------

  /** The text between `select F(` and `) aggregate` in a compiled aggregate. */
  function AggregateArgument(r: string, func: string): string
  {
    var head := |"select " + func + "("|;
    if head + |") aggregate"| <= |r| then r[head..|r| - |") aggregate"|] else ""
  }

  /**
   * `compileAggregate`: `select F(C) aggregate`, where C is the columnized
   * columns, prefixed with `distinct ` when the query is distinct and the
   * columns are not the wildcard.
   */
  function CompileAggregate(g: Collaborators, query: Query, aggregate: Aggregate): (r: string)
    ensures
      var column := g.columnize(aggregate.columns);
      var arg := AggregateArgument(r, aggregate.func);
      && |r| == |"select " + aggregate.func + "("| + |arg| + |") aggregate"|
      && r == "select " + aggregate.func + "(" + arg + ") aggregate"
      && arg == (if query.distinct && column != "*" then "distinct " + column else column)
  {
    var column := g.columnize(aggregate.columns);
    var column' := if query.distinct && column != "*" then "distinct " + column else column;
    var r := "select " + aggregate.func + "(" + column' + ") aggregate";
    assert AggregateArgument(r, aggregate.func) == column';
    r
  }

  /** `distinct` is added exactly when the query is distinct and the columns are not `*`. */
  lemma CompileAggregateDistinct(g: Collaborators, query: Query, aggregate: Aggregate)
    ensures
      var column := g.columnize(aggregate.columns);
      AggregateArgument(CompileAggregate(g, query, aggregate), aggregate.func) == "distinct " + column
      <==> query.distinct && column != "*"
  {
    var column := g.columnize(aggregate.columns);
    if !query.distinct || column == "*" {
      assert |"distinct " + column| != |column|;
    }
  }

  /** The wildcard is never made distinct. */
  lemma CompileAggregateWildcard(g: Collaborators, query: Query, aggregate: Aggregate)
    requires g.columnize(aggregate.columns) == "*"
    ensures CompileAggregate(g, query, aggregate) == "select " + aggregate.func + "(*) aggregate"
  {
  }

  // ---------------------------------------------------------------------------
  // Worked examples
  // ---------------------------------------------------------------------------

  /**
   * Collaborators that behave like Laravel's on plain names: wrapping and
   * table wrapping leave names alone, columns are joined with ", ", the
   * pluraliser appends "s" and Contact has the fields Id and Name.
   */
  function ExampleCollaborators(): Collaborators
  {
    Collaborators(
      (q: Query, w: Where) => w.column + " " + w.operator + " ?",
      (s: string) => s,
      (s: string) => s,
      (cs: seq<string>) => Join(", ", cs),
      (s: string) => s,
      (s: string) => s + "s",
      (table: string, fields: seq<string>) => if table == "Contact" then ["Id", "Name"] else [])
  }

  /** A distinct count over `*` is not made distinct. */
  lemma CountExample()
    ensures CompileAggregate(ExampleCollaborators(), Query(true), Aggregate("count", ["*"])) == "select count(*) aggregate"
  {
    var g := ExampleCollaborators();
    assert g.columnize(["*"]) == "*";
    assert "select " + "count" + "(" + "*" + ") aggregate" == "select count(*) aggregate";
  }

  /** A distinct sum over a column is. */
  lemma SumExample()
    ensures CompileAggregate(ExampleCollaborators(), Query(true), Aggregate("sum", ["Amount"])) == "select sum(distinct Amount) aggregate"
  {
    var g := ExampleCollaborators();
    assert g.columnize(["Amount"]) == "Amount";
    assert "select " + "sum" + "(" + ("distinct " + "Amount") + ") aggregate" == "select sum(distinct Amount) aggregate";
  }

  /** The literal concatenation `WhereExample` ends with, kept apart to keep that proof small. */
  lemma LiteralsWhere()
    ensures "(not " + "Name" + " like " + "'%Corp%'" + ")" == "(not Name like '%Corp%')"
  {
  }

  /** The literal concatenation `JoinExample` ends with, kept apart to keep that proof small. */
  lemma LiteralsJoin()
    ensures ", (select " + "Id,Name" + " from " + "Contacts" + ")" == ", (select Id,Name from Contacts)"
  {
  }

  /**
   * A negated LIKE on Name. The value is given with its quotes already in it:
   * the negated path only wraps the value, so it adds no quotes and no `?`.
   */
  lemma WhereExample()
    ensures WhereBasic(ExampleCollaborators(), Query(false), Where("Name", "not like", "'%Corp%'", "and")) == "(not Name like '%Corp%')"
  {
    var g := ExampleCollaborators();
    NotLikeOperators();
    assert g.wrap("Name") == "Name" && g.wrap("'%Corp%'") == "'%Corp%'";
    assert WhereBasic(g, Query(false), Where("Name", "not like", "'%Corp%'", "and"))
      == "(not " + "Name" + " like " + "'%Corp%'" + ")";
    LiteralsWhere();
  }

  /** A join to Contact becomes a subquery over its fields from the pluralised relationship. */
  lemma JoinExample()
    ensures CompileJoins(ExampleCollaborators(), [JoinClause("Contact")]) == ", (select Id,Name from Contacts)"
  {
    var g := ExampleCollaborators();
    assert Join(",", ["Id", "Name"]) == "Id,Name" by {
      assert ["Id", "Name"][1..] == ["Name"];
    }
    assert g.objectFields("Contact", ["*"]) == ["Id", "Name"];
    assert RelationshipPath(g, "Contact") == "Contacts" by {
      assert g.strPlural(g.wrapTable("Contact")) == "Contacts";
      ReplaceAbsent("Contacts", '`', "");
    }
    CompileJoinsSingle(g, JoinClause("Contact"));
    JoinFragmentIsSubquery(g, JoinClause("Contact"));
    assert CompileJoins(g, [JoinClause("Contact")]) == ", (select " + "Id,Name" + " from " + "Contacts" + ")";
    LiteralsJoin();
  }
}
