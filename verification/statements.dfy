/**
 * The SQL text the index sends to the engine: the parameterised INSERT built at
 * construction time (hlx.go) and the FTS5 CREATE VIRTUAL TABLE statement built by
 * initDatabase (database.go).
 */
module Statements {
  import opened Outcomes
  import opened Text
  import opened Seqs

  /** The part of the insertQuery template before the column list. */
  const InsertHead: string := "INSERT INTO fulltext_search ("
  /** The part of the insertQuery template between the column list and the placeholders. */
  const InsertMid: string := ") VALUES ("

  /** n positional placeholders. */
  function Placeholders(n: nat): seq<string> {
    seq(n, _ => "?")
  }

  /** The insertQuery template filled with the comma-joined fields and a "?" per field. */
  function InsertQuery(fields: seq<string>): string {
    InsertHead + Join(fields, ',') + InsertMid + Join(Placeholders(|fields|), ',') + ")"
  }

  /**
   * Reads an INSERT statement of the insertQuery shape back into its column list and
   * its number of placeholders; None when the text does not have that shape.
   */
  function ParseInsert(q: string): Option<(seq<string>, nat)> {
    if |q| < |InsertHead| || q[..|InsertHead|] != InsertHead then None
    else
      var rest := q[|InsertHead|..];
      var k := Find(rest, ')');
      var tail := rest[k..];
      if |tail| < |InsertMid| + 1 || tail[..|InsertMid|] != InsertMid || tail[|tail| - 1] != ')' then None
      else
        var holes := Split(tail[|InsertMid|..|tail| - 1], ',');
        if forall i :: 0 <= i < |holes| ==> holes[i] == "?" then Some((Split(rest[..k], ','), |holes|))
        else None
  }

  /** The text after the insert head is the column list followed by the placeholder part. */
  lemma InsertHeadSplit(cols: string, holes: string)
    ensures var q := InsertHead + cols + InsertMid + holes + ")";
      && |q| >= |InsertHead|
      && q[..|InsertHead|] == InsertHead
      && q[|InsertHead|..] == cols + (InsertMid + holes + ")")
  {
    var q := InsertHead + cols + InsertMid + holes + ")";
    assert q == InsertHead + (cols + (InsertMid + holes + ")"));
  }

  /** The first ')' after the head closes the column list, and what follows it is the placeholder part. */
  lemma InsertTailSplit(cols: string, holes: string)
    requires ')' !in cols
    ensures var rest := cols + (InsertMid + holes + ")");
      var k := Find(rest, ')');
      && k == |cols|
      && rest[..k] == cols
      && |rest[k..]| >= |InsertMid| + 1
      && rest[k..][..|InsertMid|] == InsertMid
      && rest[k..][|rest[k..]| - 1] == ')'
      && rest[k..][|InsertMid|..|rest[k..]| - 1] == holes
  {
    var rest := cols + (InsertMid + holes + ")");
    FindAppend(cols, InsertMid + holes + ")", ')');
    assert rest[..|cols|] == cols;
    var tail := rest[|cols|..];
    assert tail == InsertMid + holes + ")";
    assert tail[..|InsertMid|] == InsertMid;
    assert tail[|InsertMid|..|tail| - 1] == holes;
  }

  /** A text of the insertQuery shape is read back piece by piece: its column list and its placeholders. */
  lemma ParseInsertShape(cols: string, holes: string)
    requires ')' !in cols
    ensures var q := InsertHead + cols + InsertMid + holes + ")";
      var hs := Split(holes, ',');
      ParseInsert(q) == if forall i :: 0 <= i < |hs| ==> hs[i] == "?" then Some((Split(cols, ','), |hs|)) else None
  {
    InsertHeadSplit(cols, holes);
    InsertTailSplit(cols, holes);
  }

  /**
   * The insert statement names exactly the given fields, in order, and carries exactly
   * one placeholder per field.
   */
  lemma InsertQueryRoundTrip(fields: seq<string>)
    requires |fields| > 0
    requires forall i :: 0 <= i < |fields| ==> ',' !in fields[i] && ')' !in fields[i]
    ensures ParseInsert(InsertQuery(fields)) == Some((fields, |fields|))
  {
    var cols := Join(fields, ',');
    var holes := Join(Placeholders(|fields|), ',');
    JoinAvoids(fields, ',', ')');
    ParseInsertShape(cols, holes);
    SplitJoin(Placeholders(|fields|), ',');
    SplitJoin(fields, ',');
  }

  /** The CREATE statement up to its column list. */
  const CreateOpen: string := "CREATE VIRTUAL " + "TABLE IF NOT EXISTS " + "fulltext_search " + "USING FTS5("
  /** The CREATE statement as written before the column loop runs: it already ends in "_id,". */
  const CreateHead: string := CreateOpen + "_id,"

  /** The column loop of initDatabase: each name is appended as " name,". */
  function AppendColumns(q: string, doc: seq<string>): (r: string)
    ensures |r| >= |q| && r[..|q|] == q
    ensures |doc| == 0 ==> r == q
    ensures |doc| > 0 ==> |r| > |q| && r[|r| - 1] == ','
    decreases |doc|
  {
    if |doc| == 0 then q else AppendColumns(q + " " + doc[0] + ",", doc[1..])
  }

  /** The CREATE VIRTUAL TABLE statement exactly as initDatabase assembles it: loop, then drop the last character. */
  function CreateStatement(doc: seq<string>): string {
    var q := AppendColumns(CreateHead, doc);
    q[..|q| - 1] + ");"
  }

  /** Every field preceded by a space, as the column loop writes it. */
  function Spaced(doc: seq<string>): seq<string> {
    seq(|doc|, i requires 0 <= i < |doc| => " " + doc[i])
  }

  /** The declared columns: the hidden "_id" column, then every field preceded by a space. */
  function Columns(doc: seq<string>): seq<string> {
    ["_id"] + Spaced(doc)
  }

  /** Without commas in the field names, no declared column contains a comma. */
  lemma ColumnsCommaFree(doc: seq<string>)
    requires forall i :: 0 <= i < |doc| ==> ',' !in doc[i]
    ensures forall i :: 0 <= i < |Columns(doc)| ==> ',' !in Columns(doc)[i]
  {
    var cols := Columns(doc);
    forall i | 0 <= i < |cols|
      ensures ',' !in cols[i]
    {
      if i > 0 {
        assert cols[i] == " " + doc[i - 1];
      }
    }
  }

  /** Every declared column after "_id" starts with a space. */
  lemma ColumnsSpaced(doc: seq<string>)
    ensures forall i :: 1 <= i < |Columns(doc)| ==> |Columns(doc)[i]| > 0 && Columns(doc)[i][0] == ' '
  {
    var cols := Columns(doc);
    forall i | 1 <= i < |cols|
      ensures |cols[i]| > 0 && cols[i][0] == ' '
    {
      assert cols[i] == " " + doc[i - 1];
    }
  }

  /** Every element followed by sep. */
  function Terminated(ys: seq<string>, sep: char): string {
    if |ys| == 0 then "" else ys[0] + [sep] + Terminated(ys[1..], sep)
  }

  lemma {:induction false} AppendColumnsTerminated(q: string, doc: seq<string>)
    ensures AppendColumns(q, doc) == q + Terminated(Spaced(doc), ',')
    decreases |doc|
  {
    if |doc| > 0 {
      var q' := q + " " + doc[0] + ",";
      AppendColumnsTerminated(q', doc[1..]);
      var ys := Spaced(doc);
      assert ys[1..] == Spaced(doc[1..]);
      var rest := Terminated(Spaced(doc[1..]), ',');
      assert Terminated(ys, ',') == ys[0] + [','] + rest;
      assert AppendColumns(q, doc) == q' + rest;
      assert q' + rest == q + (ys[0] + [','] + rest);
    }
  }

  /** Dropping the final separator of a terminated list gives the joined list. */
  lemma {:induction false} TrimTerminated(ys: seq<string>, sep: char)
    requires |ys| > 0
    ensures |Terminated(ys, sep)| > 0
    ensures Terminated(ys, sep)[..|Terminated(ys, sep)| - 1] == Join(ys, sep)
  {
    if |ys| > 1 {
      TrimTerminated(ys[1..], sep);
      var t := Terminated(ys[1..], sep);
      assert Terminated(ys, sep) == ys[0] + [sep] + t;
    }
  }

  /** The loop-then-trim construction after an arbitrary prefix p. */
  lemma LoopThenTrim(p: string, doc: seq<string>)
    ensures var r := AppendColumns(p + "_id,", doc);
      |r| > 0 && r[|r| - 1] == ',' && r[..|r| - 1] == p + Join(Columns(doc), ',')
  {
    var cols := Columns(doc);
    AppendColumnsTerminated(p + "_id,", doc);
    var t1 := Terminated(Spaced(doc), ',');
    assert cols[1..] == Spaced(doc);
    var t := Terminated(cols, ',');
    assert t == "_id" + [','] + t1;
    TrimTerminated(cols, ',');
    var r := AppendColumns(p + "_id,", doc);
    assert r == p + t;
    assert r[..|r| - 1] == p + t[..|t| - 1];
  }

  /**
   * The loop-then-trim construction equals the column list joined by commas: the
   * slice always removes the comma left by the last step (the one after "_id" when
   * there are no fields), so the statement is CreateOpen, the columns, and ");".
   */
  lemma CreateStatementIsJoin(doc: seq<string>)
    ensures AppendColumns(CreateHead, doc)[|AppendColumns(CreateHead, doc)| - 1] == ','
    ensures CreateStatement(doc) == CreateOpen + Join(Columns(doc), ',') + ");"
  {
    LoopThenTrim(CreateOpen, doc);
  }

  /** With no fields the statement declares only the "_id" column. */
  lemma CreateStatementEmpty()
    ensures CreateStatement([]) == "CREATE VIRTUAL TABLE IF NOT EXISTS fulltext_search USING FTS5(_id);"
  {
    CreateStatementIsJoin([]);
    assert Columns([]) == ["_id"];
    assert CreateStatement([]) == CreateOpen + "_id" + ");";
    // the literal is compared piece by piece; one comparison of the whole text is too costly
    assert "CREATE VIRTUAL " + "TABLE IF NOT EXISTS " == "CREATE VIRTUAL TABLE IF NOT EXISTS ";
    assert "CREATE VIRTUAL TABLE IF NOT EXISTS " + "fulltext_search " == "CREATE VIRTUAL TABLE IF NOT EXISTS fulltext_search ";
    assert "CREATE VIRTUAL TABLE IF NOT EXISTS fulltext_search " + "USING FTS5(" == "CREATE VIRTUAL TABLE IF NOT EXISTS fulltext_search USING FTS5(";
    assert "CREATE VIRTUAL TABLE IF NOT EXISTS fulltext_search USING FTS5(" + "_id" == "CREATE VIRTUAL TABLE IF NOT EXISTS fulltext_search USING FTS5(_id";
    assert "CREATE VIRTUAL TABLE IF NOT EXISTS fulltext_search USING FTS5(_id" + ");" == "CREATE VIRTUAL TABLE IF NOT EXISTS fulltext_search USING FTS5(_id);";
  }

  /**
   * The statement opens with "...FTS5(_id", closes with ");", and its column list splits
   * into |doc| + 1 columns: "_id" and then " name" for every field in order.
   */
  lemma CreateStatementColumns(doc: seq<string>)
    requires forall i :: 0 <= i < |doc| ==> ',' !in doc[i]
    ensures var q := CreateStatement(doc);
      && |q| >= |CreateOpen| + 5
      && q[..|CreateOpen| + 3] == CreateOpen + "_id"
      && q[|q| - 2..] == ");"
      && Split(q[|CreateOpen|..|q| - 2], ',') == Columns(doc)
      && |Split(q[|CreateOpen|..|q| - 2], ',')| == |doc| + 1
  {
    CreateStatementIsJoin(doc);
    var cols := Columns(doc);
    JoinColumnsStart(doc);
    WrappedParts(CreateOpen, Join(cols, ','), ");");
    ColumnsCommaFree(doc);
    SplitJoin(cols, ',');
  }

  /** The joined column list starts with the "_id" column. */
  lemma JoinColumnsStart(doc: seq<string>)
    ensures |Join(Columns(doc), ',')| >= 3 && Join(Columns(doc), ',')[..3] == "_id"
  {
    var cols := Columns(doc);
    if |cols| > 1 {
      assert Join(cols, ',') == "_id" + ([','] + Join(cols[1..], ','));
    }
  }

  /** The parts of a text wrapped between a prefix and a two-character suffix. */
  lemma WrappedParts(p: string, j: string, e: string)
    requires |j| >= 3 && |e| == 2
    ensures var q := p + j + e;
      && |q| >= |p| + 5
      && q[..|p| + 3] == p + j[..3]
      && q[|q| - 2..] == e
      && q[|p|..|q| - 2] == j
  {
  }

  /** Every comma of s is followed by a space. */
  predicate CommasSpaced(s: string) {
    forall i :: 0 <= i < |s| && s[i] == ',' ==> i + 1 < |s| && s[i + 1] == ' '
  }

  lemma {:induction false} JoinCommasSpaced(ys: seq<string>)
    requires forall i :: 0 <= i < |ys| ==> ',' !in ys[i]
    requires forall i :: 1 <= i < |ys| ==> |ys[i]| > 0 && ys[i][0] == ' '
    ensures CommasSpaced(Join(ys, ','))
  {
    if |ys| > 1 {
      JoinCommasSpaced(ys[1..]);
      var rest := Join(ys[1..], ',');
      var s := Join(ys, ',');
      assert s == ys[0] + [','] + rest;
      assert |rest| > 0 && rest[0] == ' ' by {
        if |ys| > 2 {
          assert rest == ys[1] + [','] + Join(ys[2..], ',');
        }
      }
      forall i | 0 <= i < |s| && s[i] == ','
        ensures i + 1 < |s| && s[i + 1] == ' '
      {
        if i > |ys[0]| {
          assert s[i] == rest[i - |ys[0]| - 1];
        }
      }
    }
  }

  /** Commas of the middle part keep their following space when wrapped in comma-free text. */
  lemma CommasSpacedWrapped(p: string, j: string, e: string)
    requires ',' !in p && ',' !in e
    requires CommasSpaced(j)
    ensures CommasSpaced(p + j + e)
  {
    var q := p + j + e;
    forall i | 0 <= i < |q| && q[i] == ','
      ensures i + 1 < |q| && q[i + 1] == ' '
    {
      if |p| <= i < |p| + |j| {
        assert q[i] == j[i - |p|];
        assert q[i + 1] == j[i + 1 - |p|];
      }
    }
  }

  /** When no field contains a comma, the statement never contains ",)": no dangling separator survives. */
  lemma CreateStatementNoDanglingComma(doc: seq<string>)
    requires forall i :: 0 <= i < |doc| ==> ',' !in doc[i]
    ensures var q := CreateStatement(doc);
      forall i :: 0 <= i < |q| - 1 ==> !(q[i] == ',' && q[i + 1] == ')')
  {
    CreateStatementIsJoin(doc);
    var cols := Columns(doc);
    ColumnsCommaFree(doc);
    ColumnsSpaced(doc);
    JoinCommasSpaced(cols);
    CommasSpacedWrapped(CreateOpen, Join(cols, ','), ");");
  }
}
