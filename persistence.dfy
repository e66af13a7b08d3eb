/**
 * The generic persistence layer every DAO inherits: the HQL it composes
 * for lookups by condition, the DBMS it believes it talks to, the row
 * limit it writes into native queries, the null-safe numeric results and
 * the soft deletion of entities.
 */
module Persistence {
  import opened Common
  import opened Text

  /** The alias generated queries give the entity. */
  const EntityAlias: string := "_entity"

  const OrderBy: string := "order by"

  /** Every lookup by condition starts by excluding the deleted rows. */
  const WherePreamble: string := " " + EntityAlias + " where " + EntityAlias + ".deleted=0 "

  /** The code a plain delete writes; findById does not see a row carrying it. */
  const DeletedCodeDefault: int := 1

  // ------------------------------------------------------------ HQL lookups

  /** The sorting part: `order by` is put in front unless the order already says it, in any letter case. */
  function Sorting(order: string): (r: string)
    ensures order == "" ==> r == ""
    ensures EndsWith(r, order)
  {
    if order != "" && !Contains(ToLower(order), OrderBy) then OrderBy + " " + order else order
  }

  /** A non-empty sorting always reads `order by`, and is never prefixed twice. */
  lemma SortingSaysOrderBy(order: string)
    requires order != ""
    ensures Contains(ToLower(Sorting(order)), OrderBy)
    ensures Sorting(Sorting(order)) == Sorting(order)
  {
    if !Contains(ToLower(order), OrderBy) {
      ToLowerAppend(OrderBy + " ", order);
      assert ToLower(OrderBy + " ") == OrderBy + " ";
      assert OccursAt(ToLower(Sorting(order)), OrderBy, 0);
    }
  }

  /** The condition part: a non-empty condition is wrapped in ` and (` ... `) `. */
  function Condition(where: string): string {
    if where != "" then " and (" + where + ") " else " "
  }

  /** The sorting part of a lookup: ` ` when there is no sorting. */
  function SortingPart(order: string): (r: string)
    ensures order != "" ==> EndsWith(r, order)
  {
    if Sorting(order) != "" then Sorting(order) else " "
  }

  /** The head of every lookup over `className`: the class, its alias and the filter on deleted rows. */
  function LookupHead(className: string): string {
    "from " + className + WherePreamble
  }

  /** findByWhere: the HQL selecting the live entities of `className` matching `where`, sorted by `order`. */
  function FindByWhereQuery(className: string, where: string, order: string): (r: string)
    ensures StartsWith(r, LookupHead(className))
    ensures OccursAt(r, Condition(where), |LookupHead(className)|)
    ensures where != "" ==> OccursAt(r, " and (" + where + ") ", |LookupHead(className)|)
    ensures EndsWith(r, SortingPart(order))
    ensures |r| == |LookupHead(className)| + |Condition(where)| + |SortingPart(order)|
    ensures order != "" ==> EndsWith(r, order)
  {
    var r := LookupHead(className) + Condition(where) + SortingPart(order);
    Concat3(LookupHead(className), Condition(where), SortingPart(order));
    if order != "" then EndsWithTrans(r, SortingPart(order), order); r else r
  }

  /** The head only admits rows whose deleted code is 0. */
  lemma LookupHeadFiltersDeleted(className: string)
    ensures OccursAt(LookupHead(className), EntityAlias + ".deleted=0 ", |"from " + className + " " + EntityAlias + " where "|)
    ensures EndsWith(LookupHead(className), " where " + EntityAlias + ".deleted=0 ")
  {
    var a := "from " + className + " " + EntityAlias + " where ";
    var b := EntityAlias + ".deleted=0 ";
    assert LookupHead(className) == a + b + "";
    Concat3(a, b, "");
    var c := "from " + className + " " + EntityAlias;
    assert LookupHead(className) == c + (" where " + EntityAlias + ".deleted=0 ");
    assert LookupHead(className)[|c|..] == " where " + EntityAlias + ".deleted=0 ";
  }

  /** findIdsByWhere: the same lookup, selecting only the ids. */
  function FindIdsByWhereQuery(className: string, where: string, order: string): (r: string)
    ensures StartsWith(r, "select " + EntityAlias + ".id ")
    ensures r[|"select " + EntityAlias + ".id "|..] == FindByWhereQuery(className, where, order)
  {
    var select := "select " + EntityAlias + ".id ";
    var r := select + FindByWhereQuery(className, where, order);
    assert r[..|select|] == select;
    r
  }

  // ------------------------------------------------------------------ DBMS

  /** getDbms: the configured jdbc.dbms, "mysql" when unset, in lower case. */
  function Dbms(configured: Option<string>): (r: string)
    ensures configured.None? ==> r == "mysql"
    ensures |r| == |configured.GetOr("mysql")|
    ensures forall i :: 0 <= i < |r| ==> r[i] == LowerChar(configured.GetOr("mysql")[i])
    ensures forall i :: 0 <= i < |r| ==> !('A' <= r[i] <= 'Z')
  {
    ToLower(configured.GetOr("mysql"))
  }

  predicate IsOracle(dbms: string) { dbms == "oracle" }
  predicate IsHsql(dbms: string) { dbms == "hsqldb" }
  predicate IsMariaDB(dbms: string) { dbms == "maria" }
  predicate IsMySQL(dbms: string) { dbms == "mysql" || IsMariaDB(dbms) }
  predicate IsPostgreSQL(dbms: string) { dbms == "postgresql" }
  predicate IsSqlServer(dbms: string) { dbms == "mssql" }

  /** The detection ignores letter case, defaults to MySQL and counts MariaDB as MySQL. */
  lemma DbmsDetection(configured: string)
    ensures Dbms(Some(ToLower(configured))) == Dbms(Some(configured))
    ensures IsMySQL(Dbms(None))
    ensures IsMySQL(Dbms(Some("MARIA"))) && IsMariaDB(Dbms(Some("Maria")))
    ensures IsOracle(Dbms(Some("Oracle"))) && IsSqlServer(Dbms(Some("MSSQL")))
  {
    ToLowerIdempotent(configured);
  }

  // ------------------------------------------------------------- row limit

  function LimitClause(n: int): string {
    " LIMIT " + IntToString(n)
  }

  function OracleCondition(n: int): string {
    "where ROWNUM <= " + IntToString(n) + " and "
  }

  /** The first position where `where` or `WHERE` begins. */
  function FirstWhereKeyword(q: string): (r: Option<nat>)
    ensures r.Some? ==> OccursAt(q, "where", r.value) || OccursAt(q, "WHERE", r.value)
    ensures r.Some? ==> forall j :: 0 <= j < r.value ==> !OccursAt(q, "where", j) && !OccursAt(q, "WHERE", j)
    ensures r.None? ==> !Contains(q, "where") && !Contains(q, "WHERE")
  {
    match (IndexOf(q, "where"), IndexOf(q, "WHERE"))
    case (None, None) => None
    case (Some(i), None) => Some(i)
    case (None, Some(j)) => Some(j)
    case (Some(i), Some(j)) => Some(if i <= j then i else j)
  }

  /** Oracle as intended: one ROWNUM condition, opening the first where clause of either letter case. */
  function OracleRowLimit(q: string, n: int): (r: string)
    ensures FirstWhereKeyword(q).None? ==> r == q
    ensures FirstWhereKeyword(q).Some? ==>
      var i := FirstWhereKeyword(q).value;
      i + 5 <= |q| && |r| == |q| - 5 + |OracleCondition(n)| && r[..i] == q[..i] && OccursAt(r, OracleCondition(n), i)
      && r[i + |OracleCondition(n)|..] == q[i + 5..]
  {
    match FirstWhereKeyword(q)
    case None => q
    case Some(i) =>
      var r := q[..i] + OracleCondition(n) + q[i + 5..];
      assert r[i..i + |OracleCondition(n)|] == OracleCondition(n);
      r
  }

  /** Oracle as written: the first `WHERE`, then the first `where` of the result, each get the condition. */
  function OracleRowLimitAsWritten(q: string, n: int): string {
    var c := OracleCondition(n);
    var out := if Contains(q, "WHERE") then ReplaceFirst(q, "WHERE", c) else q;
    if Contains(q, "where") then ReplaceFirst(out, "where", c) else out
  }

  /** On a query that spells the keyword in one letter case only, the code as written does what is intended. */
  lemma OracleAgreesOnSingleCase(q: string, n: int)
    requires !Contains(q, "where") || !Contains(q, "WHERE")
    ensures OracleRowLimitAsWritten(q, n) == OracleRowLimit(q, n)
  {
    ContainsIffFound(q, "where");
    ContainsIffFound(q, "WHERE");
  }

  /** The first upper-case keyword after a stretch without `W` is the one replaced. */
  lemma UpperKeywordReplaced(pre: string, mid: string, post: string, c: string)
    requires 'W' !in pre && 'W' !in mid
    ensures Contains(pre + "where" + mid + "WHERE" + post, "WHERE")
    ensures IndexOf(pre + "where" + mid + "WHERE" + post, "WHERE") == Some(|pre| + 5 + |mid|)
    ensures ReplaceFirst(pre + "where" + mid + "WHERE" + post, "WHERE", c) == pre + "where" + (mid + c + post)
  {
    var upperPre := pre + "where" + mid;
    assert 'W' !in upperPre;
    FirstOccurrenceAfter(upperPre, "WHERE", post, c);
    ContainsIffFound(upperPre + "WHERE" + post, "WHERE");
  }

  /** The first lower-case keyword after a stretch without `w` is the one replaced. */
  lemma LowerKeywordReplaced(pre: string, rest: string, c: string)
    requires 'w' !in pre
    ensures Contains(pre + "where" + rest, "where")
    ensures IndexOf(pre + "where" + rest, "where") == Some(|pre|)
    ensures ReplaceFirst(pre + "where" + rest, "where", c) == pre + c + rest
  {
    FirstOccurrenceAfter(pre, "where", rest, c);
    ContainsIffFound(pre + "where" + rest, "where");
  }

  /** The two replacements the code as written makes, one after the other. */
  lemma OracleAsWrittenSteps(q: string, n: int, out: string, result: string)
    requires Contains(q, "WHERE") && ReplaceFirst(q, "WHERE", OracleCondition(n)) == out
    requires Contains(q, "where") && ReplaceFirst(out, "where", OracleCondition(n)) == result
    ensures OracleRowLimitAsWritten(q, n) == result
  {
  }

  /** As written, the sub-query's `WHERE` is rewritten first, then the outer `where`. */
  lemma OracleAsWrittenTwice(pre: string, mid: string, post: string, n: int)
    requires 'w' !in pre && 'W' !in pre && 'W' !in mid
    ensures OracleRowLimitAsWritten(pre + "where" + mid + "WHERE" + post, n)
         == pre + OracleCondition(n) + (mid + OracleCondition(n) + post)
  {
    var c := OracleCondition(n);
    var q := pre + "where" + mid + "WHERE" + post;
    UpperKeywordReplaced(pre, mid, post, c);
    LowerKeywordReplaced(pre, mid + c + post, c);
    LowerKeywordPresent(pre, mid, post);
    OracleAsWrittenSteps(q, n, pre + "where" + (mid + c + post), pre + c + (mid + c + post));
  }

  lemma LowerKeywordPresent(pre: string, mid: string, post: string)
    ensures Contains(pre + "where" + mid + "WHERE" + post, "where")
  {
    Concat3(pre, "where", mid + "WHERE" + post);
    assert pre + "where" + mid + "WHERE" + post == pre + "where" + (mid + "WHERE" + post);
  }

  /** As intended, only the outer `where`, the first keyword, is rewritten. */
  lemma OracleIntendedOnce(pre: string, mid: string, post: string, n: int)
    requires 'w' !in pre && 'W' !in pre && 'W' !in mid
    ensures OracleRowLimit(pre + "where" + mid + "WHERE" + post, n)
         == pre + OracleCondition(n) + (mid + "WHERE" + post)
  {
    OuterKeywordFirst(pre, mid, post);
    assert pre + "where" + mid + "WHERE" + post == pre + "where" + (mid + "WHERE" + post);
    OracleIntendedStep(pre, mid + "WHERE" + post, n);
  }

  lemma OuterKeywordFirst(pre: string, mid: string, post: string)
    requires 'w' !in pre && 'W' !in pre && 'W' !in mid
    ensures FirstWhereKeyword(pre + "where" + (mid + "WHERE" + post)) == Some(|pre|)
  {
    UpperKeywordReplaced(pre, mid, post, "");
    assert pre + "where" + mid + "WHERE" + post == pre + "where" + (mid + "WHERE" + post);
    LowerKeywordReplaced(pre, mid + "WHERE" + post, "");
  }

  /** The keyword found right after `pre` is the one replaced. */
  lemma OracleIntendedStep(pre: string, rest: string, n: int)
    requires FirstWhereKeyword(pre + "where" + rest) == Some(|pre|)
    ensures OracleRowLimit(pre + "where" + rest, n) == pre + OracleCondition(n) + rest
  {
    Concat3(pre, "where", rest);
  }

  /**
   * A query whose lower-case `where` comes before an upper-case `WHERE`
   * (an outer query around a sub-query, say) gets the condition twice as
   * written: the sub-query is limited as well.
   */
  lemma OracleAsWrittenLimitsSubquery(pre: string, mid: string, post: string, n: int)
    requires 'w' !in pre && 'W' !in pre && 'W' !in mid
    ensures OracleRowLimitAsWritten(pre + "where" + mid + "WHERE" + post, n)
         == pre + OracleCondition(n) + (mid + OracleCondition(n) + post)
    ensures OracleRowLimit(pre + "where" + mid + "WHERE" + post, n)
         == pre + OracleCondition(n) + (mid + "WHERE" + post)
  {
    OracleAsWrittenTwice(pre, mid, post, n);
    OracleIntendedOnce(pre, mid, post, n);
  }

  /** The sub-query case on a concrete query with a limit of 10 rows. */
  lemma OracleSubqueryExample()
    ensures OracleRowLimitAsWritten("select a from t " + "where" + " b in (SELECT c FROM u " + "WHERE" + " d)", 10)
         == "select a from t " + OracleCondition(10) + (" b in (SELECT c FROM u " + OracleCondition(10) + " d)")
    ensures OracleRowLimit("select a from t " + "where" + " b in (SELECT c FROM u " + "WHERE" + " d)", 10)
         == "select a from t " + OracleCondition(10) + (" b in (SELECT c FROM u " + "WHERE" + " d)")
  {
    var pre, mid, post := "select a from t ", " b in (SELECT c FROM u ", " d)";
    assert 'w' !in pre && 'W' !in pre;
    assert 'W' !in mid;
    OracleAsWrittenLimitsSubquery(pre, mid, post, 10);
  }

  /**
   * insertTopClause with the intended Oracle rewrite: a positive row
   * limit is written into the query in the dialect of the DBMS; anything
   * else leaves it alone.
   */
  function InsertTopClause(dbms: string, query: string, maxRows: Option<int>): (r: string)
    ensures maxRows.None? || maxRows.value <= 0 ==> r == query
    ensures !(IsMySQL(dbms) || IsPostgreSQL(dbms) || IsSqlServer(dbms) || IsOracle(dbms)) ==> r == query
    ensures maxRows.Some? && maxRows.value > 0 && (IsMySQL(dbms) || IsPostgreSQL(dbms)) ==>
      var tail := LimitClause(maxRows.value);
      EndsWith(r, tail) && query == r[..|r| - |tail|] + (if EndsWith(query, ";") then ";" else "")
    ensures maxRows.Some? && maxRows.value > 0 && IsSqlServer(dbms) ==>
      r == (if StartsWith(query, "SELECT") then "SELECT TOP " + IntToString(maxRows.value) + " " + query[6..]
            else if StartsWith(query, "select") then "select TOP " + IntToString(maxRows.value) + " " + query[6..]
            else query)
    ensures maxRows.Some? && maxRows.value > 0 && IsOracle(dbms) ==> r == OracleRowLimit(query, maxRows.value)
  {
    if maxRows.None? || maxRows.value <= 0 then query
    else
      var n := maxRows.value;
      if IsMySQL(dbms) || IsPostgreSQL(dbms) then
        var body := if EndsWith(query, ";") then query[..|query| - 1] else query;
        var r := body + LimitClause(n);
        assert r[..|r| - |LimitClause(n)|] == body;
        assert EndsWith(query, ";") ==> query == body + ";";
        r
      else if IsSqlServer(dbms) then
        if StartsWith(query, "SELECT") then
          ReplaceFirstAtStart(query, "SELECT", "SELECT TOP " + IntToString(n) + " ");
          ReplaceFirst(query, "SELECT", "SELECT TOP " + IntToString(n) + " ")
        else if StartsWith(query, "select") then
          ReplaceFirstAtStart(query, "select", "select TOP " + IntToString(n) + " ");
          ReplaceFirst(query, "select", "select TOP " + IntToString(n) + " ")
        else query
      else if IsOracle(dbms) then OracleRowLimit(query, n)
      else query
  }

  // -------------------------------------------------------- query results

  /** queryForLong: a missing result reads as 0. */
  function QueryForLong(result: Option<int>): (r: int)
    ensures result.None? ==> r == 0
    ensures result.Some? ==> r == result.value
  {
    result.GetOr(0)
  }

  /** The (int) cast of a long: the low 32 bits, read as a signed number. */
  function ToInt32(x: int): (r: int)
    ensures -0x8000_0000 <= r < 0x8000_0000
    ensures (x - r) % 0x1_0000_0000 == 0
    ensures -0x8000_0000 <= x < 0x8000_0000 ==> r == x
  {
    var low := x % 0x1_0000_0000;
    if low >= 0x8000_0000 then low - 0x1_0000_0000 else low
  }

  /** queryForInt: the long result cast to int. */
  function QueryForInt(result: Option<int>): (r: int)
    ensures result.None? ==> r == 0
    ensures result.Some? && -0x8000_0000 <= result.value < 0x8000_0000 ==> r == result.value
    ensures -0x8000_0000 <= r < 0x8000_0000
  {
    ToInt32(QueryForLong(result))
  }

  /**
   * applyParametersAndLimit: every given parameter is bound under its
   * name, and the row limit is set only when it is positive.
   */
  method ApplyParametersAndLimit<V>(parameters: Option<map<string, V>>, max: Option<int>)
    returns (bound: map<string, V>, maxResults: Option<int>)
    ensures bound == parameters.GetOr(map[])
    ensures maxResults.Some? <==> max.Some? && max.value > 0
    ensures maxResults.Some? ==> maxResults == max
  {
    bound := map[];
    if parameters.Some? {
      var entries := parameters.value;
      var pending := entries.Keys;
      while pending != {}
        invariant pending <= entries.Keys
        invariant bound == map k | k in entries.Keys - pending :: entries[k]
        decreases pending
      {
        var name :| name in pending;
        bound := bound[name := entries[name]];
        pending := pending - {name};
      }
      assert entries.Keys - pending == entries.Keys;
    }
    maxResults := if max.Some? && max.value > 0 then max else None;
  }

  // --------------------------------------------------------- soft deletion

  /** A persistent object as far as deletion is concerned. */
  datatype Entity = Entity(id: int, deleted: int, lastModified: int)

  /** findById: a row deleted with the default code is not found; any other row is. */
  function FindById(rows: map<int, Entity>, id: int): (r: Option<Entity>)
    ensures r.Some? <==> id in rows && rows[id].deleted != DeletedCodeDefault
    ensures r.Some? ==> r.value == rows[id]
  {
    if id in rows && rows[id].deleted != DeletedCodeDefault then Some(rows[id]) else None
  }

  /** The table after delete(id, code) marked a row it found and stored it at `now`. */
  function SoftDeleted(rows: map<int, Entity>, id: int, code: int, now: int): (r: map<int, Entity>)
    requires id in rows
    ensures r.Keys == rows.Keys
    ensures r[id].deleted == code && r[id].id == rows[id].id && r[id].lastModified == now
    ensures forall k :: k in rows && k != id ==> r[k] == rows[k]
  {
    rows[id := rows[id].(deleted := code, lastModified := now)]
  }

  /** Soft deletion hides a row from findById only under the default code, and touches no other row. */
  lemma {:induction false} SoftDeleteVisibility(rows: map<int, Entity>, id: int, code: int, now: int, other: int)
    requires FindById(rows, id).Some?
    ensures FindById(SoftDeleted(rows, id, code, now), id).None? <==> code == DeletedCodeDefault
    ensures other != id ==> FindById(SoftDeleted(rows, id, code, now), other) == FindById(rows, other)
  {
    var after := SoftDeleted(rows, id, code, now);
    assert after[id].deleted == code;
    if other != id && other in rows {
      assert after[other] == rows[other];
    }
  }

  /** The rows whose ids are listed, marked with `code` by the bulk update. */
  function MarkedDeleted(rows: map<int, Entity>, ids: seq<int>, code: int): (r: map<int, Entity>)
    ensures r.Keys == rows.Keys
    ensures forall k :: k in rows ==> r[k] == (if k in ids then rows[k].(deleted := code) else rows[k])
  {
    map k | k in rows :: if k in ids then rows[k].(deleted := code) else rows[k]
  }

  function IdStrings(ids: seq<int>): (r: seq<string>)
    ensures |r| == |ids|
    ensures forall i :: 0 <= i < |ids| ==> r[i] == IntToString(ids[i])
  {
    seq(|ids|, i requires 0 <= i < |ids| => IntToString(ids[i]))
  }

  function ParseIds(pieces: seq<string>): (r: seq<int>)
    ensures |r| == |pieces|
    ensures forall i :: 0 <= i < |pieces| ==> r[i] == ParseInt(pieces[i])
  {
    seq(|pieces|, i requires 0 <= i < |pieces| => ParseInt(pieces[i]))
  }

  /** deleteAll's id list: the ids in decimal, separated by commas. */
  method JoinIds(ids: seq<int>) returns (joined: string)
    ensures joined == Join(IdStrings(ids), ',')
  {
    joined := "";
    var i := 0;
    while i < |ids|
      invariant 0 <= i <= |ids|
      invariant joined == Join(IdStrings(ids)[..i], ',')
      invariant |joined| > 0 <==> i > 0
    {
      if |joined| > 0 {
        joined := joined + ",";
      }
      joined := joined + IntToString(ids[i]);
      assert IdStrings(ids)[..i + 1][..i] == IdStrings(ids)[..i];
      i := i + 1;
    }
    assert IdStrings(ids)[..i] == IdStrings(ids);
  }

  /** The id list reads back as the ids it was made of. */
  lemma {:induction false} IdListRoundTrip(ids: seq<int>)
    requires |ids| > 0
    ensures ParseIds(Split(Join(IdStrings(ids), ','), ',')) == ids
  {
    var pieces := IdStrings(ids);
    forall i | 0 <= i < |pieces| ensures ',' !in pieces[i] {
      assert pieces[i] == IntToString(ids[i]);
    }
    SplitJoin(pieces, ',');
    forall i | 0 <= i < |ids| ensures ParseIds(pieces)[i] == ids[i] {
      IntToStringRoundTrip(ids[i]);
    }
  }

  /** The bulk soft-delete statement of deleteAll. */
  function DeleteAllStatement(className: string, code: int, idList: string): string {
    "update " + className + " set deleted=" + IntToString(code) + " where id in(" + idList + ")"
  }

  // --------------------------------------------------- extended attributes

  /** An extended attribute as saveOrUpdate sees it: multiplicity, whether it holds text, its joined text. */
  datatype Attribute = Attribute(multiple: int, isString: bool, stringValues: Option<string>)

  /** A multi-valued text attribute keeps its values joined by commas; any other attribute keeps none. */
  function SavedAttribute(a: Attribute, values: seq<string>): (r: Attribute)
    ensures r.multiple == a.multiple && r.isString == a.isString
    ensures r.stringValues.Some? <==> a.multiple == 1 && a.isString
    ensures r.stringValues.Some? ==> r.stringValues.value == Join(values, ',')
  {
    a.(stringValues := if a.multiple == 1 && a.isString then Some(Join(values, ',')) else None)
  }

  /** The joined text of a multi-valued attribute splits back into its values, when none holds a comma. */
  lemma SavedValuesReadBack(a: Attribute, values: seq<string>)
    requires a.multiple == 1 && a.isString
    requires |values| > 0 && forall i :: 0 <= i < |values| ==> ',' !in values[i]
    ensures Split(SavedAttribute(a, values).stringValues.value, ',') == values
  {
    SplitJoin(values, ',');
  }

  /**
   * saveOrUpdate's pass over the attributes of an extensible entity
   * before it is written; `valuesOf(name)` is what the entity reports as
   * the values of the attribute `name`, already rendered as text.
   */
  method SaveAttributes(attributes: map<string, Attribute>, valuesOf: string -> seq<string>)
    returns (saved: map<string, Attribute>)
    ensures saved.Keys == attributes.Keys
    ensures forall name :: name in attributes ==> saved[name] == SavedAttribute(attributes[name], valuesOf(name))
  {
    saved := attributes;
    var pending := attributes.Keys;
    while pending != {}
      invariant pending <= attributes.Keys && saved.Keys == attributes.Keys
      invariant forall name :: name in pending ==> saved[name] == attributes[name]
      invariant forall name :: name in attributes.Keys - pending ==>
        saved[name] == SavedAttribute(attributes[name], valuesOf(name))
      decreases pending
    {
      var name :| name in pending;
      saved := saved[name := SavedAttribute(saved[name], valuesOf(name))];
      pending := pending - {name};
    }
  }

  /** One DAO over the rows of one entity class; `storingEnabled` is the state of the storing aspect. */
  class EntityTable {
    var rows: map<int, Entity>
    const className: string
    const storingEnabled: bool

    /** Every row is stored under its own id, the primary key. */
    ghost predicate Valid()
      reads this
    {
      forall k :: k in rows ==> rows[k].id == k
    }

    constructor (className: string, storingEnabled: bool)
      ensures Valid()
      ensures rows == map[] && this.className == className && this.storingEnabled == storingEnabled
    {
      rows := map[];
      this.className := className;
      this.storingEnabled := storingEnabled;
    }

    /** store(entity): stamped with the time of the write, unless storing is disabled. */
    method Store(entity: Entity, now: int)
      requires Valid()
      modifies this
      ensures Valid()
      ensures rows == if storingEnabled then old(rows)[entity.id := entity.(lastModified := now)] else old(rows)
    {
      if !storingEnabled {
        return;
      }
      rows := rows[entity.id := entity.(lastModified := now)];
    }

    /** delete(id, code): the row found by id is marked with `code` and stored. */
    method Delete(id: int, code: int, now: int) returns (error: Option<string>)
      requires Valid()
      modifies this
      ensures Valid()
      ensures code == 0 ==> error == Some("code cannot be 0") && rows == old(rows)
      ensures code != 0 ==> error.None?
      ensures code != 0 && storingEnabled && FindById(old(rows), id).Some? ==>
        rows == SoftDeleted(old(rows), id, code, now)
      ensures code != 0 && !(storingEnabled && FindById(old(rows), id).Some?) ==> rows == old(rows)
    {
      if code == 0 {
        return Some("code cannot be 0");
      }
      error := None;
      if !storingEnabled {
        return;
      }
      var entity := FindById(rows, id);
      if entity.None? {
        return;
      }
      Store(entity.value.(deleted := code), now);
    }

    /**
     * deleteAll(entities, code): one bulk update marks every listed row;
     * returns the statement run, if any.
     */
    method DeleteAll(entities: seq<Entity>, code: int) returns (statement: Option<string>)
      requires Valid()
      modifies this
      ensures Valid()
      ensures !storingEnabled || entities == [] ==> statement.None? && rows == old(rows)
      ensures storingEnabled && entities != [] ==>
        var ids := seq(|entities|, i requires 0 <= i < |entities| => entities[i].id);
        statement == Some(DeleteAllStatement(className, code, Join(IdStrings(ids), ',')))
        && rows == MarkedDeleted(old(rows), ids, code)
    {
      if !storingEnabled || entities == [] {
        return None;
      }
      var ids := seq(|entities|, i requires 0 <= i < |entities| => entities[i].id);
      var idList := JoinIds(ids);
      statement := Some(DeleteAllStatement(className, code, idList));
      rows := MarkedDeleted(rows, ids, code);
    }
  }
}
