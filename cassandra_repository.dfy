/**
 * The repository functions the ownership resolution uses: the CQL query
 * logger, the partition-token query, the keyspace-qualified table name and
 * the retrying row query.
 */
module CassandraRepository {
  import opened Wrappers
  import opened Text
  import opened Driver

  /** A bound parameter, as the query logger formats it. */
  datatype CqlValue = Str(s: string) | Int(i: int) | Bool(b: bool) | Null

  /** The `params` argument of the logger: None, a tuple or list, or any other object. */
  datatype Params = NoParams | ParamList(items: seq<CqlValue>) | OtherParams

  const Placeholder: string := "%s"

  // ---------------------------------------------------------------------
  // log_cql_query

  /** How one parameter is written into the logged query text. */
  function Render(v: CqlValue): (r: string)
    ensures |r| >= 1
    ensures r[0] == '\'' || r[0] == '-' || IsDigit(r[0]) || r[0] == 'N' || r[0] == 'T' || r[0] == 'F'
    ensures '%' in r ==> v.Str? && '%' in v.s
    ensures v.Null? ==> r == "NULL"
    ensures v.Bool? ==> r == (if v.b then "True" else "False")
  {
    match v
    case Str(s) => "'" + DoubleQuotes(s) + "'"
    case Int(i) => IntToDecimal(i)
    case Bool(b) => if b then "True" else "False"
    case Null => "NULL"
  }

  /** A string parameter is a quoted literal whose body reads back as the parameter. */
  lemma RenderStringReadsBack(s: string)
    ensures var r := Render(Str(s));
      |r| >= 2 && r[0] == '\'' && r[|r| - 1] == '\'' && UndoubleQuotes(r[1..|r| - 1]) == s
  {
    var r := Render(Str(s));
    assert r[1..|r| - 1] == DoubleQuotes(s);
    UndoubleDoubleQuotes(s);
  }

  /** An integer parameter is its exact decimal numeral. */
  lemma RenderIntReadsBack(i: int)
    ensures ParseDecimal(Render(Int(i))) == i
  {
    ParseIntToDecimal(i);
  }

  /** The parameters substituted one by one, each into the leftmost remaining placeholder. */
  function Substitute(query: string, params: seq<CqlValue>): (r: string)
    decreases |params|
  {
    if params == [] then query
    else Substitute(ReplaceFirst(query, Placeholder, Render(params[0])), params[1..])
  }

  /** The query text that the logger writes after "CQL Query: ". */
  function NativeQuery(query: string, params: Params): (r: string)
  {
    match params
    case ParamList(items) => Substitute(query, items)
    case _ => query
  }

  /** log_cql_query: the log line, with the parameters written into the query text. */
  method LogCqlQuery(query: string, params: Params) returns (line: string)
    ensures line == "CQL Query: " + NativeQuery(query, params)
  {
    if params.ParamList? && |params.items| > 0 {
      var items := params.items;
      var native := query;
      for i := 0 to |items|
        invariant Substitute(native, items[i..]) == Substitute(query, items)
      {
        assert items[i..][1..] == items[i + 1..];
        native := ReplaceFirst(native, Placeholder, Render(items[i]));
      }
      line := "CQL Query: " + native;
    } else {
      line := "CQL Query: " + query;
    }
  }

  /** Once no placeholder is left, further parameters change nothing. */
  lemma {:induction false} SurplusParamsIgnored(query: string, params: seq<CqlValue>)
    requires !Contains(query, Placeholder)
    ensures Substitute(query, params) == query
    decreases |params|
  {
    if params != [] {
      SurplusParamsIgnored(query, params[1..]);
    }
  }

  /** A string with no '%' holds no placeholder. */
  lemma NoPercentNoPlaceholder(s: string)
    requires '%' !in s
    ensures !Contains(s, Placeholder)
  {
    forall i: nat | i <= |s| ensures !OccursAt(s, Placeholder, i) {
      if i + 2 <= |s| {
        assert s[i..i + 2][0] == s[i];
      }
    }
  }

  /** Substitution never reaches back into a prefix that holds no placeholder and does not end in '%'. */
  lemma {:induction false} SubstituteAfterPrefix(p: string, t: string, params: seq<CqlValue>)
    requires !Contains(p, Placeholder)
    requires p == [] || p[|p| - 1] != '%'
    ensures Substitute(p + t, params) == p + Substitute(t, params)
    decreases |params|
  {
    if params != [] {
      var r := Render(params[0]);
      ReplaceFirstAfterPrefix(p, t, Placeholder, r);
      SubstituteAfterPrefix(p, ReplaceFirst(t, Placeholder, r), params[1..]);
    }
  }

  /** Literal segments joined by placeholders: the query text as written by a caller. */
  function Template(segments: seq<string>): (r: string)
    requires |segments| >= 1
  {
    if |segments| == 1 then segments[0] else segments[0] + Placeholder + Template(segments[1..])
  }

  /** The segments with each rendered value in the place of the placeholder before it. */
  function Filled(segments: seq<string>, values: seq<CqlValue>): (r: string)
    requires |segments| == |values| + 1
  {
    if values == [] then segments[0]
    else segments[0] + Render(values[0]) + Filled(segments[1..], values[1..])
  }

  /**
   * Placeholders are filled left to right, one value each, provided the
   * segments hold no placeholder and no string value contains '%'.
   */
  lemma {:induction false} FillsInOrder(segments: seq<string>, values: seq<CqlValue>)
    requires |segments| == |values| + 1
    requires forall k :: 0 <= k < |segments| ==> !Contains(segments[k], Placeholder)
    requires forall k :: 0 <= k < |values| ==> !(values[k].Str? && '%' in values[k].s)
    ensures Substitute(Template(segments), values) == Filled(segments, values)
  {
    if values != [] {
      var s0, r0 := segments[0], Render(values[0]);
      var rest := Template(segments[1..]);
      assert Template(segments) == s0 + Placeholder + rest;
      ReplaceAfterPrefix(s0, rest, r0);
      assert [values[0]] + values[1..] == values;
      SubstituteStep(Template(segments), values[0], values[1..]);
      NoPercentNoPlaceholder(r0);
      ContainsPairInConcat(s0, r0, Placeholder);
      SubstituteAfterPrefix(s0 + r0, rest, values[1..]);
      FillsInOrder(segments[1..], values[1..]);
    }
  }

  /** The first placeholder after a placeholder-free prefix is the one replaced. */
  lemma ReplaceAfterPrefix(a: string, b: string, rep: string)
    requires !Contains(a, Placeholder)
    ensures ReplaceFirst(a + Placeholder + b, Placeholder, rep) == a + rep + b
  {
    var q := a + Placeholder + b;
    FindAfterPrefix(a, Placeholder, b);
    assert q[..|a|] == a && q[|a| + 2..] == b;
  }

  /** A query ending in its only placeholder gets the one parameter's literal at its end. */
  lemma OnePlaceholderAtEnd(prefix: string, v: CqlValue)
    requires !Contains(prefix, Placeholder)
    ensures NativeQuery(prefix + Placeholder, ParamList([v])) == prefix + Render(v)
  {
    var q := prefix + Placeholder;
    assert q == prefix + Placeholder + "";
    ReplaceAfterPrefix(prefix, "", Render(v));
    assert prefix + Render(v) + "" == prefix + Render(v);
    assert [v][1..] == [];
    assert Substitute(q, [v]) == Substitute(prefix + Render(v), []);
  }

  /** One quote between two quote-free strings is doubled and nothing else changes. */
  lemma QuoteBetween(a: string, b: string)
    requires '\'' !in a && '\'' !in b
    ensures DoubleQuotes(a + "'" + b) == a + "''" + b
  {
    DoubleQuotesConcat(a + "'", b);
    DoubleQuotesConcat(a, "'");
    DoubleQuotesQuoteFree(a);
    DoubleQuotesQuoteFree(b);
  }

  /** Quotes inside a string parameter are doubled: O'Brien is written 'O''Brien'. */
  lemma QuotedStringExample()
    ensures Render(Str("O'Brien")) == "'O''Brien'"
  {
    QuoteBetween("O", "Brien");
    assert "O" + "'" + "Brien" == "O'Brien";
    assert "'" + ("O" + "''" + "Brien") + "'" == "'O''Brien'";
  }

  /**
   * A "%s" brought in by a string parameter is the placeholder the next
   * parameter fills: the second value lands inside the first one's quotes.
   */
  lemma PlaceholderInParameterFilledNext(a: string, b: string, v: CqlValue)
    requires '%' !in a
    ensures Substitute(a + Placeholder + b, [Str(Placeholder), v]) == a + "'" + Render(v) + "'" + b
  {
    var first := "'" + Placeholder + "'";
    assert Render(Str(Placeholder)) == first by {
      DoubleQuotesQuoteFree(Placeholder);
    }
    var a', b' := a + "'", "'" + b;
    var q1 := a' + Placeholder + b';
    assert q1 == a + first + b;
    NoPercentNoPlaceholder(a);
    ReplaceAfterPrefix(a, b, first);
    SubstituteStep(a + Placeholder + b, Str(Placeholder), [v]);
    assert '%' !in a';
    NoPercentNoPlaceholder(a');
    ReplaceAfterPrefix(a', b', Render(v));
    SubstituteStep(q1, v, []);
    assert a' + Render(v) + b' == a + "'" + Render(v) + "'" + b;
  }

  /** The first parameter goes into the first placeholder, then the rest follow. */
  lemma SubstituteStep(query: string, v: CqlValue, rest: seq<CqlValue>)
    ensures Substitute(query, [v] + rest) == Substitute(ReplaceFirst(query, Placeholder, Render(v)), rest)
  {
    assert ([v] + rest)[1..] == rest;
  }

  // ---------------------------------------------------------------------
  // Table names and the token query

  /** `f"{keyspace}.{table_name}" if keyspace else table_name` */
  function FullTableName(keyspace: Option<string>, table: string): (r: string)
    ensures |r| >= |table| && r[|r| - |table|..] == table
    ensures keyspace.Some? && keyspace.value != "" ==>
      |r| == |keyspace.value| + 1 + |table| && r[..|keyspace.value|] == keyspace.value && r[|keyspace.value|] == '.'
    ensures keyspace.None? || keyspace.value == "" ==> r == table
  {
    if keyspace.Some? && keyspace.value != "" then keyspace.value + "." + table else table
  }

  /** The qualified name splits back into its keyspace and table when neither holds a dot. */
  lemma QualifiedNameSplits(keyspace: Option<string>, table: string)
    requires keyspace.Some? ==> '.' !in keyspace.value
    requires '.' !in table
    ensures Split(FullTableName(keyspace, table), '.')
         == if keyspace.Some? && keyspace.value != "" then [keyspace.value, table] else [table]
  {
    if keyspace.Some? && keyspace.value != "" {
      SplitJoin([keyspace.value, table], '.');
      assert Join([keyspace.value, table], '.') == keyspace.value + "." + table;
    } else {
      SplitJoin([table], '.');
    }
  }

  /** The statement `session.execute` receives, with the key as its one bound parameter. */
  type TokenSession = (string, seq<CqlValue>) -> QueryOutcome<TokenRow>

  const TokenQueryHead: string := "SELECT token(id) as token_value FROM "
  const TokenQueryWhere: string := " WHERE id = "

  /** The token query: always `<keyspace>.<table>`, even for an empty keyspace. */
  function TokenQuery(keyspace: string, table: string): (r: string)
  {
    TokenQueryHead + keyspace + "." + table + TokenQueryWhere + Placeholder
  }

  /** get_partition_token: the first row's token when the query returns rows; None when it returns none or raises. */
  function GetPartitionToken(session: TokenSession, keyspace: string, table: string, key: string): (r: Option<int>)
    ensures r.Some? <==> HasRows(session(TokenQuery(keyspace, table), [Str(key)]))
    ensures r.Some? ==> r.value == session(TokenQuery(keyspace, table), [Str(key)]).rows[0].tokenValue
  {
    match session(TokenQuery(keyspace, table), [Str(key)])
    case Failed => None
    case Rows(rows) => if |rows| > 0 then Some(rows[0].tokenValue) else None
  }

  /** The logged token query names the key as a quoted literal where the placeholder was. */
  lemma TokenQueryLogged(keyspace: string, table: string, key: string)
    requires !Contains(keyspace, Placeholder) && !Contains(table, Placeholder)
    ensures NativeQuery(TokenQuery(keyspace, table), ParamList([Str(key)]))
         == TokenQueryHead + keyspace + "." + table + TokenQueryWhere + "'" + DoubleQuotes(key) + "'"
  {
    NoPercentNoPlaceholder(TokenQueryHead);
    NoPercentNoPlaceholder(".");
    NoPercentNoPlaceholder(TokenQueryWhere);
    var a := TokenQueryHead + keyspace;
    ContainsPairInConcat(TokenQueryHead, keyspace, Placeholder);
    ContainsPairInConcat(a, ".", Placeholder);
    ContainsPairInConcat(a + ".", table, Placeholder);
    ContainsPairInConcat(a + "." + table, TokenQueryWhere, Placeholder);
    var p := a + "." + table + TokenQueryWhere;
    OnePlaceholderAtEnd(p, Str(key));
  }

  // ---------------------------------------------------------------------
  // query_data

  /** What the store answers to attempt `k` (counting from 0) of a statement with its bound parameters. */
  type QuerySession<R> = (nat, string, seq<CqlValue>) -> QueryOutcome<R>

  function SelectQuery(keyspace: Option<string>, table: string): (r: string)
  {
    "SELECT * FROM " + FullTableName(keyspace, table) + TokenQueryWhere + Placeholder
  }

  /** The outcome of attempt `k` of query_data. */
  function Attempt<R>(session: QuerySession<R>, k: nat, keyspace: Option<string>, table: string, recordId: string): (r: QueryOutcome<R>)
  {
    session(k, SelectQuery(keyspace, table), [Str(recordId)])
  }

  /**
   * query_data: runs the select at most `maxRetries` times (the sleep between
   * attempts is not modelled) and returns the first row of the first attempt
   * that yields rows.
   */
  method QueryData<R>(session: QuerySession<R>, table: string, recordId: string, keyspace: Option<string>, maxRetries: int)
    returns (row: Option<R>, attempts: nat)
    ensures row.None? <==> forall k :: 0 <= k < maxRetries ==> !HasRows(Attempt(session, k, keyspace, table, recordId))
    ensures row.None? ==> attempts == if maxRetries > 0 then maxRetries else 0
    ensures row.Some? ==> 1 <= attempts <= maxRetries
    ensures row.Some? ==> HasRows(Attempt(session, attempts - 1, keyspace, table, recordId))
    ensures row.Some? ==> row.value == Attempt(session, attempts - 1, keyspace, table, recordId).rows[0]
    ensures row.Some? ==> forall k :: 0 <= k < attempts - 1 ==> !HasRows(Attempt(session, k, keyspace, table, recordId))
  {
    var selectQuery := SelectQuery(keyspace, table);
    var attempt: nat := 0;
    while attempt < maxRetries
      invariant attempt <= if maxRetries > 0 then maxRetries else 0
      invariant forall k :: 0 <= k < attempt ==> !HasRows(Attempt(session, k, keyspace, table, recordId))
    {
      var result := session(attempt, selectQuery, [Str(recordId)]);
      if result.Rows? && |result.rows| > 0 {
        assert HasRows(Attempt(session, attempt, keyspace, table, recordId));
        return Some(result.rows[0]), attempt + 1;
      }
      attempt := attempt + 1;
    }
    return None, attempt;
  }
}
