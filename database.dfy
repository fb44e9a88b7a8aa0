/**
  The statement text that the four CRUD operations of the `Database` class
  build. Each operation returns the statement it would hand to the
  connection's `query` call; the call itself and its result are not modelled.
*/
module Database {
  import opened Php

  datatype Option<T> = None | Some(value: T)

  /** `p` is an initial segment of `s`. */
  predicate IsPrefixOf(p: string, s: string)
  {
    |p| <= |s| && s[..|p|] == p
  }

  lemma PrefixTransitive(a: string, b: string, c: string)
    requires IsPrefixOf(a, b) && IsPrefixOf(b, c)
    ensures IsPrefixOf(a, c)
  {
  }

  /** `p` is a final segment of `s`. */
  predicate IsSuffixOf(p: string, s: string)
  {
    |p| <= |s| && s[|s| - |p|..] == p
  }

  /** A string wrapped in double quotes, with nothing inside escaped. */
  function Quote(s: string): (q: string)
    ensures |q| == |s| + 2 && q[0] == '"' && q[|q| - 1] == '"' && q[1..|q| - 1] == s
  {
    "\"" + s + "\""
  }

  /** A column list argument: an array is imploded with ", ", anything else
      is converted to a string as it is. */
  function ColumnList(columns: Value): string
  {
    if columns.Arr? then Implode(", ", columns.entries) else Render(columns)
  }

  /** The array read `$records[$i]`: where the key sits, if it is present. */
  function Find(entries: seq<Entry>, k: Key): (r: Option<nat>)
    ensures r.Some? ==> r.value < |entries| && entries[r.value].key == k
    ensures r.None? ==> forall p :: 0 <= p < |entries| ==> entries[p].key != k
  {
    if |entries| == 0 then None
    else if entries[0].key == k then Some(0)
    else match Find(entries[1..], k)
      case None => None
      case Some(p) => Some(p + 1)
  }

  // ---------------------------------------------------------------------
  // create: INSERT
  // ---------------------------------------------------------------------

  /** A record slot after the quoting loop has visited the indices below
      `bound`: a string stored under one of those integer keys is quoted. */
  function QuoteEntry(e: Entry, bound: int): Entry
  {
    if e.key.IntKey? && 0 <= e.key.i < bound && e.val.Str?
    then Entry(e.key, Str(Quote(e.val.s)))
    else e
  }

  /** The records once the quoting loop of `create` has run to `count`. */
  function QuoteRecords(records: seq<Entry>): seq<Entry>
  {
    seq(|records|, p requires 0 <= p < |records| => QuoteEntry(records[p], |records|))
  }

  /** The INSERT statement `create` sends. */
  function InsertStatement(table: string, records: seq<Entry>, columns: Value): string
  {
    "INSERT INTO `" + table + "`"
    + (if NullLike(columns) then "" else " (" + ColumnList(columns) + ")")
    + " VALUES (" + Implode(", ", QuoteRecords(records)) + ")"
  }

  /** `create`: builds the statement step by step, quoting the string records
      of a copy of the array in place. */
  method Create(table: string, records: seq<Entry>, columns: Value) returns (stmt: string)
    requires DistinctKeys(records)
    ensures stmt == InsertStatement(table, records, columns)
  {
    stmt := "INSERT INTO `" + table + "`";
    if !NullLike(columns) {
      var col := ColumnList(columns);
      stmt := stmt + " (" + col + ")";
    }
    var recs := new Entry[|records|](p requires 0 <= p < |records| => records[p]);
    var i := 0;
    while i < recs.Length
      invariant 0 <= i <= recs.Length == |records|
      invariant forall p :: 0 <= p < recs.Length ==> recs[p] == QuoteEntry(records[p], i)
    {
      var j := Find(recs[..], IntKey(i));
      if j.Some? && recs[j.value].val.Str? {
        recs[j.value] := Entry(IntKey(i), Str(Quote(recs[j.value].val.s)));
      }
      i := i + 1;
    }
    assert recs[..] == QuoteRecords(records);
    stmt := stmt + " VALUES (" + Implode(", ", recs[..]) + ")";
  }

  /** The quoting loop keeps the number, order and keys of the records,
      leaves every value that is not a string alone, and quotes a string
      exactly when it is stored under an integer key below the count. */
  lemma QuoteRecordsSlots(records: seq<Entry>, p: nat)
    requires p < |records|
    ensures |QuoteRecords(records)| == |records|
    ensures QuoteRecords(records)[p].key == records[p].key
    ensures !records[p].val.Str? ==> QuoteRecords(records)[p].val == records[p].val
    ensures records[p].val.Str? ==>
      (QuoteRecords(records)[p].val == Str(Quote(records[p].val.s)) <==>
        records[p].key.IntKey? && 0 <= records[p].key.i < |records|)
    ensures records[p].val.Str? && !(records[p].key.IntKey? && 0 <= records[p].key.i < |records|) ==>
      QuoteRecords(records)[p].val == records[p].val
  {
  }

  /** For an array literal every string record is quoted and every other
      record is left as it is. */
  lemma ListRecordsQuoted(vs: seq<Value>)
    ensures QuoteRecords(List(vs)) ==
      List(seq(|vs|, p requires 0 <= p < |vs| => if vs[p].Str? then Str(Quote(vs[p].s)) else vs[p]))
  {
  }

  /** Records stored under string keys are never quoted: the loop only looks
      up the integer keys 0 .. count - 1. */
  lemma AssociativeRecordsUnquoted(records: seq<Entry>)
    requires forall p :: 0 <= p < |records| ==> records[p].key.StrKey?
    ensures QuoteRecords(records) == records
  {
  }

  /** The INSERT text starts with the backticked table; the column clause
      follows it exactly when the columns are not null-like (the character
      after the table and a blank is '(' rather than the 'V' of VALUES); the
      text ends with the VALUES clause over the quoted records. */
  lemma InsertLayout(table: string, records: seq<Entry>, columns: Value)
    ensures var stmt := InsertStatement(table, records, columns);
      var head := "INSERT INTO `" + table + "`";
      var values := " VALUES (" + Implode(", ", QuoteRecords(records)) + ")";
      && IsPrefixOf(head, stmt)
      && |stmt| > |head| + 1
      && (stmt[|head| + 1] == '(' <==> !NullLike(columns))
      && (NullLike(columns) ==> stmt == head + values)
      && (!NullLike(columns) ==> IsPrefixOf(head + " (" + ColumnList(columns) + ")", stmt))
      && stmt[|stmt| - |values|..] == values
  {
  }

  /** An insert written as an array literal with a column list. */
  lemma InsertExample()
    ensures InsertStatement("users", List([Str("Adam"), Int(30)]), Arr(List([Str("name"), Str("age")])))
      == "INSERT INTO `users` (name, age) VALUES (\"Adam\", 30)"
  {
    InsertExampleColumns();
    InsertExampleValues();
    var cols := Arr(List([Str("name"), Str("age")]));
    assert !NullLike(cols);
    assert "INSERT INTO `" + "users" == "INSERT INTO `users";
    assert "INSERT INTO `users" + "`" == "INSERT INTO `users`";
    assert " (" + "name, age" == " (name, age";
    assert " (name, age" + ")" == " (name, age)";
    assert "INSERT INTO `users`" + " (name, age)" == "INSERT INTO `users` (name, age)";
    assert " VALUES (" + "\"Adam\", 30" == " VALUES (\"Adam\", 30";
    assert " VALUES (\"Adam\", 30" + ")" == " VALUES (\"Adam\", 30)";
    assert "INSERT INTO `users` (name, age)" + " VALUES (\"Adam\", 30)"
      == "INSERT INTO `users` (name, age) VALUES (\"Adam\", 30)";
  }

  lemma InsertExampleColumns()
    ensures ColumnList(Arr(List([Str("name"), Str("age")]))) == "name, age"
  {
    var cols := List([Str("name"), Str("age")]);
    assert seq(|cols|, p requires 0 <= p < |cols| => Render(cols[p].val)) == ["name", "age"];
    JoinPair(", ", "name", "age");
    assert "name" + ", " == "name, ";
    assert "name, " + "age" == "name, age";
  }

  lemma InsertExampleValues()
    ensures Implode(", ", QuoteRecords(List([Str("Adam"), Int(30)]))) == "\"Adam\", 30"
  {
    var q := QuoteRecords(List([Str("Adam"), Int(30)]));
    assert Quote("Adam") == "\"Adam\"" by {
      assert "\"" + "Adam" == "\"Adam";
      assert "\"Adam" + "\"" == "\"Adam\"";
    }
    assert |q| == 2;
    assert q[0] == Entry(IntKey(0), Str("\"Adam\""));
    assert q[1] == Entry(IntKey(1), Int(30));
    assert Render(Int(30)) == "30" by { assert NatToString(3) == "3"; }
    assert seq(|q|, p requires 0 <= p < |q| => Render(q[p].val)) == ["\"Adam\"", "30"];
    JoinPair(", ", "\"Adam\"", "30");
    assert "\"Adam\"" + ", " == "\"Adam\", ";
    assert "\"Adam\", " + "30" == "\"Adam\", 30";
  }

  // ---------------------------------------------------------------------
  // read: SELECT
  // ---------------------------------------------------------------------

  /** The optional tail clauses of a SELECT, in the order `read` appends them. */
  datatype ClauseKind = Where | OrderBy | Limit | Offset

  function Rank(k: ClauseKind): nat
  {
    match k
    case Where => 0
    case OrderBy => 1
    case Limit => 2
    case Offset => 3
  }

  function Keyword(k: ClauseKind): string
  {
    match k
    case Where => " WHERE "
    case OrderBy => " ORDER BY "
    case Limit => " LIMIT "
    case Offset => " OFFSET "
  }

  datatype Clause = Clause(kind: ClauseKind, arg: Value)

  function Present(kind: ClauseKind, arg: Value): seq<Clause>
  {
    if NullLike(arg) then [] else [Clause(kind, arg)]
  }

  /** The clauses a SELECT carries: one per argument that is not null-like,
      in the fixed order WHERE, ORDER BY, LIMIT, OFFSET. */
  function SelectClauses(where: Value, order: Value, limit: Value, offset: Value): (cs: seq<Clause>)
    ensures forall p :: 0 <= p < |cs| ==> !NullLike(cs[p].arg)
    ensures forall p, q :: 0 <= p < q < |cs| ==> Rank(cs[p].kind) < Rank(cs[q].kind)
    ensures Clause(Where, where) in cs <==> !NullLike(where)
    ensures Clause(OrderBy, order) in cs <==> !NullLike(order)
    ensures Clause(Limit, limit) in cs <==> !NullLike(limit)
    ensures Clause(Offset, offset) in cs <==> !NullLike(offset)
    ensures forall c :: c in cs ==>
      c in [Clause(Where, where), Clause(OrderBy, order), Clause(Limit, limit), Clause(Offset, offset)]
  {
    Present(Where, where) + Present(OrderBy, order) + Present(Limit, limit) + Present(Offset, offset)
  }

  function RenderClauses(cs: seq<Clause>): string
  {
    if cs == [] then "" else Keyword(cs[0].kind) + Render(cs[0].arg) + RenderClauses(cs[1..])
  }

  lemma {:induction false} RenderClausesAppend(a: seq<Clause>, b: seq<Clause>)
    ensures RenderClauses(a + b) == RenderClauses(a) + RenderClauses(b)
  {
    if a != [] {
      assert (a + b)[1..] == a[1..] + b;
      RenderClausesAppend(a[1..], b);
    } else {
      assert a + b == b;
    }
  }

  /** `SELECT <columns> FROM `<table>``: the part `read` always emits. */
  function SelectHead(table: string, column: Value): string
  {
    "SELECT " + ColumnList(column) + " FROM `" + table + "`"
  }

  /** One `if ($arg != null) $stmt .= <keyword> . $arg;` step of `read`. */
  function AppendClause(stmt: string, kind: ClauseKind, arg: Value): string
  {
    if NullLike(arg) then stmt else stmt + (Keyword(kind) + Render(arg))
  }

  /** An append step keeps what was built so far, and adds text exactly when
      its argument is not null-like. */
  lemma AppendClauseGrows(stmt: string, kind: ClauseKind, arg: Value)
    ensures IsPrefixOf(stmt, AppendClause(stmt, kind, arg))
    ensures NullLike(arg) <==> |AppendClause(stmt, kind, arg)| == |stmt|
  {
  }

  /** The SELECT statement `read` sends, built as `read` builds it: the head,
      then each clause appended in turn when its argument is not null-like. */
  function BuildSelect(table: string, column: Value, where: Value, order: Value,
                       limit: Value, offset: Value): (r: string)
    ensures IsPrefixOf(SelectHead(table, column), r)
    ensures r == SelectHead(table, column) <==>
      NullLike(where) && NullLike(order) && NullLike(limit) && NullLike(offset)
    ensures !NullLike(where) ==> IsPrefixOf(SelectHead(table, column) + " WHERE " + Render(where), r)
    ensures !NullLike(offset) ==> IsSuffixOf(" OFFSET " + Render(offset), r)
  {
    var s0 := SelectHead(table, column);
    var s1 := AppendClause(s0, Where, where);
    var s2 := AppendClause(s1, OrderBy, order);
    var s3 := AppendClause(s2, Limit, limit);
    var s4 := AppendClause(s3, Offset, offset);
    AppendClauseGrows(s0, Where, where);
    AppendClauseGrows(s1, OrderBy, order);
    AppendClauseGrows(s2, Limit, limit);
    AppendClauseGrows(s3, Offset, offset);
    PrefixTransitive(s0, s1, s2);
    PrefixTransitive(s0, s2, s3);
    PrefixTransitive(s0, s3, s4);
    PrefixTransitive(s1, s2, s3);
    PrefixTransitive(s1, s3, s4);
    assert !NullLike(where) ==> s1 == s0 + " WHERE " + Render(where);
    assert !NullLike(offset) ==> s4 == s3 + (" OFFSET " + Render(offset));
    s4
  }

  /** One append step extends the rendered clause list by that clause. */
  lemma AppendClauseExtends(head: string, cs: seq<Clause>, kind: ClauseKind, arg: Value)
    ensures AppendClause(head + RenderClauses(cs), kind, arg)
      == head + RenderClauses(cs + Present(kind, arg))
  {
    if NullLike(arg) {
      assert cs + Present(kind, arg) == cs;
    } else {
      var c := [Clause(kind, arg)];
      var r, t := RenderClauses(cs), Keyword(kind) + Render(arg);
      assert c[1..] == [];
      assert RenderClauses(c) == t;
      RenderClausesAppend(cs, c);
      assert (head + r) + t == head + (r + t);
    }
  }

  /** The sequential appends of `read` produce exactly the head followed by
      the clause list of SelectClauses. */
  lemma SelectIsHeadAndClauses(table: string, column: Value, where: Value, order: Value,
                               limit: Value, offset: Value)
    ensures BuildSelect(table, column, where, order, limit, offset)
      == SelectHead(table, column) + RenderClauses(SelectClauses(where, order, limit, offset))
  {
    var head := SelectHead(table, column);
    var w, o, l, f := Present(Where, where), Present(OrderBy, order), Present(Limit, limit), Present(Offset, offset);
    assert head == head + RenderClauses([]);
    assert [] + w == w;
    AppendClauseExtends(head, [], Where, where);
    AppendClauseExtends(head, w, OrderBy, order);
    AppendClauseExtends(head, w + o, Limit, limit);
    AppendClauseExtends(head, w + o + l, Offset, offset);
  }

  /** A null-like argument has the same effect as leaving it out, so a
      LIMIT or OFFSET of 0, an empty WHERE string or `false` is omitted. */
  lemma SelectNullLikeOmitted(table: string, column: Value, where: Value, order: Value,
                              limit: Value, offset: Value)
    ensures NullLike(where) ==>
      BuildSelect(table, column, where, order, limit, offset) == BuildSelect(table, column, Null, order, limit, offset)
    ensures NullLike(order) ==>
      BuildSelect(table, column, where, order, limit, offset) == BuildSelect(table, column, where, Null, limit, offset)
    ensures NullLike(limit) ==>
      BuildSelect(table, column, where, order, limit, offset) == BuildSelect(table, column, where, order, Null, offset)
    ensures NullLike(offset) ==>
      BuildSelect(table, column, where, order, limit, offset) == BuildSelect(table, column, where, order, limit, Null)
  {
  }

  /** With every argument at its default, `read` selects `*` from the table. */
  lemma SelectDefaults(table: string)
    ensures BuildSelect(table, Str("*"), Null, Null, Null, Null) == "SELECT * FROM `" + table + "`"
  {
  }

  /** The call shown in the documentation of `read`, with the condition and
      the ordering already interpolated. */
  lemma SelectExample()
    ensures BuildSelect("user", Arr(List([Str("name"), Str("email"), Str("password")])),
                        Str("name = Adam"), Str("7 ASC"), Int(10), Int(15))
      == "SELECT name, email, password FROM `user`" + " WHERE name = Adam" + " ORDER BY 7 ASC"
         + " LIMIT 10" + " OFFSET 15"
  {
    SelectExampleHead();
    assert " WHERE " + "name = Adam" == " WHERE name = Adam";
    assert " ORDER BY " + "7 ASC" == " ORDER BY 7 ASC";
    assert Render(Int(10)) == "10" by { assert NatToString(1) == "1"; }
    assert Render(Int(15)) == "15" by { assert NatToString(1) == "1"; }
    assert " LIMIT " + "10" == " LIMIT 10";
    assert " OFFSET " + "15" == " OFFSET 15";
  }

  lemma SelectExampleHead()
    ensures SelectHead("user", Arr(List([Str("name"), Str("email"), Str("password")])))
      == "SELECT name, email, password FROM `user`"
  {
    var cols := List([Str("name"), Str("email"), Str("password")]);
    assert seq(|cols|, p requires 0 <= p < |cols| => Render(cols[p].val)) == ["name", "email", "password"];
    JoinTriple(", ", "name", "email", "password");
    assert "name" + ", " == "name, ";
    assert "name, " + "email" == "name, email";
    assert "name, email" + ", " == "name, email, ";
    assert "name, email, " + "password" == "name, email, password";
    assert "SELECT " + "name, email, password" == "SELECT name, email, password";
    assert "SELECT name, email, password" + " FROM `" == "SELECT name, email, password FROM `";
    assert "SELECT name, email, password FROM `" + "user" == "SELECT name, email, password FROM `user";
    assert "SELECT name, email, password FROM `user" + "`" == "SELECT name, email, password FROM `user`";
  }

  // ---------------------------------------------------------------------
  // update: UPDATE
  // ---------------------------------------------------------------------

  /** One `column = value` assignment: a string value is quoted, any other
      value is converted to a string as it is. */
  function Assignment(e: Entry): string
  {
    if e.val.Str? then RenderKey(e.key) + " = \"" + e.val.s + "\""
    else RenderKey(e.key) + " = " + Render(e.val)
  }

  /** An assignment is the column, " = ", and the value: a string value
      quoted exactly as `create` quotes its records, anything else as its
      string conversion. */
  lemma AssignmentForm(e: Entry)
    ensures IsPrefixOf(RenderKey(e.key) + " = ", Assignment(e))
    ensures e.val.Str? ==> IsSuffixOf(Quote(e.val.s), Assignment(e))
    ensures !e.val.Str? ==> IsSuffixOf(Render(e.val), Assignment(e))
    ensures |Assignment(e)| == |RenderKey(e.key)| + 3 + (if e.val.Str? then |Quote(e.val.s)| else |Render(e.val)|)
  {
  }

  /** The `$args` array of `update`: one assignment per record, in order. */
  function Assignments(records: seq<Entry>): seq<string>
  {
    seq(|records|, p requires 0 <= p < |records| => Assignment(records[p]))
  }

  /** `update` adds a WHERE clause only for a where that is a non-empty string. */
  predicate HasUpdateCondition(where: Value)
  {
    !NullLike(where) && where.Str?
  }

  /** The UPDATE statement `update` sends. */
  function UpdateStatement(table: string, records: seq<Entry>, where: Value): string
  {
    "UPDATE `" + table + "` SET " + Join(", ", Assignments(records))
    + (if HasUpdateCondition(where) then " WHERE " + where.s else "")
  }

  /** `update`: collects the assignments in a loop, then joins them. */
  method Update(table: string, records: seq<Entry>, where: Value) returns (stmt: string)
    ensures stmt == UpdateStatement(table, records, where)
  {
    stmt := "UPDATE `" + table + "` SET ";
    var args: seq<string> := [];
    var i := 0;
    while i < |records|
      invariant 0 <= i <= |records|
      invariant |args| == i
      invariant forall p :: 0 <= p < i ==> args[p] == Assignment(records[p])
    {
      args := args + [Assignment(records[i])];
      i := i + 1;
    }
    assert args == Assignments(records);
    stmt := stmt + Join(", ", args);
    if !NullLike(where) && where.Str? {
      stmt := stmt + " WHERE " + where.s;
    }
  }

  /** The WHERE clause is appended only for a non-empty string; a where of
      any other kind (an integer, an array, "") produces the same text as no
      where at all. */
  lemma UpdateCondition(table: string, records: seq<Entry>, where: Value)
    ensures HasUpdateCondition(where) <==> where.Str? && where.s != ""
    ensures HasUpdateCondition(where) ==>
      UpdateStatement(table, records, where) == UpdateStatement(table, records, Null) + " WHERE " + where.s
    ensures !HasUpdateCondition(where) ==>
      UpdateStatement(table, records, where) == UpdateStatement(table, records, Null)
  {
  }

  /** Adding one more record adds one more assignment at the end. */
  lemma UpdateSnoc(table: string, records: seq<Entry>, e: Entry)
    ensures UpdateStatement(table, records + [e], Null) ==
      if records == [] then "UPDATE `" + table + "` SET " + Assignment(e)
      else UpdateStatement(table, records, Null) + ", " + Assignment(e)
  {
    assert Assignments(records + [e]) == Assignments(records) + [Assignment(e)];
    JoinSnoc(", ", Assignments(records), Assignment(e));
  }

  /** Three records give three assignments separated by ", ". */
  lemma UpdateThreeRecords(table: string, e0: Entry, e1: Entry, e2: Entry, where: Value)
    ensures UpdateStatement(table, [e0, e1, e2], where)
      == "UPDATE `" + table + "` SET " + Assignment(e0) + ", " + Assignment(e1) + ", " + Assignment(e2)
         + (if HasUpdateCondition(where) then " WHERE " + where.s else "")
  {
    assert Assignments([e0, e1, e2]) == [Assignment(e0), Assignment(e1), Assignment(e2)];
    JoinTriple(", ", Assignment(e0), Assignment(e1), Assignment(e2));
  }

  /** The call shown in the documentation of `update`, with id 5: the
      statement is `UPDATE `users` SET name = "Adam", gender = "male",
      Age = 30 WHERE id = 5`, written here piece by piece. */
  lemma UpdateExample()
    ensures UpdateStatement("users",
                            [Entry(StrKey("name"), Str("Adam")), Entry(StrKey("gender"), Str("male")),
                             Entry(StrKey("Age"), Int(30))],
                            Str("id = 5"))
      == "UPDATE `users` SET " + "name = \"Adam\"" + ", " + "gender = \"male\"" + ", " + "Age = 30"
         + " WHERE id = 5"
  {
    UpdateThreeRecords("users", Entry(StrKey("name"), Str("Adam")), Entry(StrKey("gender"), Str("male")),
                       Entry(StrKey("Age"), Int(30)), Str("id = 5"));
    assert Assignment(Entry(StrKey("name"), Str("Adam"))) == "name = \"Adam\"";
    assert Assignment(Entry(StrKey("gender"), Str("male"))) == "gender = \"male\"";
    assert Assignment(Entry(StrKey("Age"), Int(30))) == "Age = 30" by {
      assert Render(Int(30)) == "30" by { assert NatToString(3) == "3"; }
    }
    assert "UPDATE `" + "users" + "` SET " == "UPDATE `users` SET ";
    assert " WHERE " + "id = 5" == " WHERE id = 5";
    assert HasUpdateCondition(Str("id = 5"));
  }

  // ---------------------------------------------------------------------
  // delete: DELETE
  // ---------------------------------------------------------------------

  /** The DELETE statement `delete` sends, as written: without a condition it
      is `DELETE <table>`, with neither FROM nor backticks. */
  function BuildDelete(table: string, where: Value): (r: string)
    ensures IsPrefixOf("DELETE ", r)
    ensures NullLike(where) ==> r[7..] == table
    ensures !NullLike(where) ==> IsPrefixOf("DELETE FROM `" + table + "` WHERE ", r)
    ensures !NullLike(where) ==> IsSuffixOf(Render(where), r)
    ensures !NullLike(where) ==> |r| == 21 + |table| + |Render(where)|
  {
    if NullLike(where) then "DELETE " + table
    else "DELETE FROM `" + table + "` WHERE " + Render(where)
  }

  /** Only the null-like branch lacks FROM: for a table name that does not
      itself start with "FROM `", the statement starts with "DELETE FROM `"
      exactly when a condition is given. */
  lemma DeleteFromIffCondition(table: string, where: Value)
    requires !IsPrefixOf("FROM `", table)
    ensures IsPrefixOf("DELETE FROM `", BuildDelete(table, where)) <==> !NullLike(where)
  {
  }

  /** The statement sent for `delete('users')`: MySQL's DELETE syntax
      requires FROM before the table, so this is not a DELETE of the table. */
  lemma DeleteWithoutConditionLacksFrom()
    ensures BuildDelete("users", Null) == "DELETE users"
    ensures !IsPrefixOf("DELETE FROM ", BuildDelete("users", Null))
  {
    assert BuildDelete("users", Null)[7] == 'u';
  }

  /** The evidently intended DELETE: the table always comes after FROM, in
      backticks, and a condition adds a WHERE clause. */
  function BuildDeleteFrom(table: string, where: Value): (stmt: string)
    ensures IsPrefixOf("DELETE FROM `" + table + "`", stmt)
    ensures NullLike(where) <==> |stmt| == |"DELETE FROM `" + table + "`"|
  {
    "DELETE FROM `" + table + "`" + (if NullLike(where) then "" else " WHERE " + Render(where))
  }

  /** The intended DELETE agrees with the written one whenever a condition
      is given, and differs from it exactly when none is. */
  lemma DeleteFromAgreesWithCondition(table: string, where: Value)
    ensures !NullLike(where) ==> BuildDeleteFrom(table, where) == BuildDelete(table, where)
    ensures NullLike(where) ==> BuildDeleteFrom(table, where) != BuildDelete(table, where)
  {
  }
}
