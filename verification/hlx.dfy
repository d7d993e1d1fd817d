/**
 * The typed full-text index (hlx.go): construction with schema inference, and the
 * Insert / Get / Delete / Search / Fields operations over the engine's table.
 *
 * The engine is not modelled: its table is a sequence of rows, the answers of its
 * foreign calls are passed in as error outcomes, and the identifier generator is a
 * function `gen` from a draw number to an identifier, with the number of draws so far
 * kept in the state.
 */
module Hlx {
  import opened Outcomes
  import opened Text
  import opened Seqs
  import opened Statements
  import opened Codec

  /** A constructed index: the declared field names of its record type, the inferred fields and the prepared insert text. */
  datatype Index = Index(names: seq<string>, fields: seq<string>, insertSql: string)

  /** The engine's table of stored rows, and how many identifiers have been drawn from the generator. */
  datatype State = State(rows: seq<Row>, drawn: nat)

  /** The outcome of construction and the statements sent to the engine while constructing. */
  datatype Construction = Construction(result: Result<Index>, issued: seq<string>)

  /** What construction establishes about an index. */
  predicate Valid(ix: Index) {
    && ix.fields == InferredFields(ix.names)
    && DeclaresId(ix.names)
    && ix.insertSql == InsertQuery(ix.fields)
  }

  /** The fields an index was constructed with. */
  function Fields(ix: Index): seq<string> {
    ix.fields
  }

  /**
   * Builds an index for a record type with the given declared field names. The open,
   * create and prepare steps are foreign calls; their error outcomes are parameters.
   */
  method NewIndex(names: seq<string>, openErr: Option<string>, createErr: Option<string>, prepareErr: Option<string>)
    returns (c: Construction)
    ensures c.result == Failure(MissingId) <==> !DeclaresId(names)
    ensures !DeclaresId(names) ==> c.issued == [] && Message(c.result.error) == "Id field is missing"
    ensures c.result.Success? <==> DeclaresId(names) && openErr.None? && createErr.None? && prepareErr.None?
    ensures c.result.Success? ==>
      && Valid(c.result.value)
      && c.result.value.names == names
      && |Fields(c.result.value)| == |names|
      && forall i :: 0 <= i < |names| ==>
           IsLowerCase(Fields(c.result.value)[i]) && EqualFold(Fields(c.result.value)[i], names[i])
    ensures DeclaresId(names) && openErr.Some? ==>
      c == Construction(Failure(Engine(openErr.value)), [])
    ensures DeclaresId(names) && openErr.None? && createErr.Some? ==>
      c == Construction(Failure(Engine(createErr.value)), [CreateStatement(InferredFields(names))])
    ensures DeclaresId(names) && openErr.None? && createErr.None? ==>
      && c.issued == [CreateStatement(InferredFields(names)), InsertQuery(InferredFields(names))]
      && (prepareErr.Some? ==> c.result == Failure(Engine(prepareErr.value)))
  {
    var f: seq<string> := [];
    var idAdded := false;
    var i := 0;
    while i < |names|
      invariant 0 <= i <= |names|
      invariant f == InferredFields(names[..i])
      invariant idAdded <==> exists j :: 0 <= j < i && EqualFold(names[j], "id")
    {
      var l := ToLower(names[i]);
      assert names[..i + 1] == names[..i] + [names[i]];
      f := f + [l];
      LowerIsIdIffFold(names[i]);
      if l == "id" {
        idAdded := true;
      }
      i := i + 1;
    }
    assert names[..|names|] == names;

    if !idAdded {
      return Construction(Failure(MissingId), []);
    }
    if openErr.Some? {
      return Construction(Failure(Engine(openErr.value)), []);
    }
    var create := CreateStatement(f);
    if createErr.Some? {
      return Construction(Failure(Engine(createErr.value)), [create]);
    }
    var iquery := InsertQuery(f);
    if prepareErr.Some? {
      return Construction(Failure(Engine(prepareErr.value)), [create, iquery]);
    }
    return Construction(Success(Index(names, f, iquery)), [create, iquery]);
  }

  // ---------------------------------------------------------------------------
  // Insert

  /** How many of the documents draw an identifier from the generator when encoded. */
  function DrawCount(names: seq<string>, docs: seq<Record>): nat {
    if |docs| == 0 then 0
    else DrawCount(names, docs[..|docs| - 1]) + (if NeedsId(names, docs[|docs| - 1]) then 1 else 0)
  }

  /** The written rows whose write succeeded, in write order. */
  function Committed(writes: seq<Row>, outcomes: seq<Option<string>>): seq<Row>
    requires |writes| == |outcomes|
  {
    if |writes| == 0 then []
    else
      var n := |writes| - 1;
      Committed(writes[..n], outcomes[..n]) + (if outcomes[n].None? then [writes[n]] else [])
  }

  /**
   * Writes one document's values into the reused buffer, position by position, drawing
   * an identifier from the generator for an empty field spelled "Id".
   */
  method FillBuffer(names: seq<string>, doc: Record, vals: seq<string>, gen: nat -> string, drawn: nat)
    returns (vals': seq<string>, drawn': nat)
    requires Distinct(names)
    requires |doc| == |names| && |vals| == |names|
    ensures vals' == Encode(names, doc, gen(drawn))
    ensures drawn' == drawn + (if NeedsId(names, doc) then 1 else 0)
  {
    vals' := vals;
    drawn' := drawn;
    var i := 0;
    while i < |names|
      invariant 0 <= i <= |names|
      invariant |vals'| == |names|
      invariant forall j :: 0 <= j < i ==> vals'[j] == Encode(names, doc, gen(drawn))[j]
      invariant drawn' == drawn + (if exists j :: 0 <= j < i && Substituted(names, doc, j) then 1 else 0)
    {
      var value := doc[i];
      if names[i] == "Id" && value == "" {
        assert Substituted(names, doc, i);
        assert forall j :: 0 <= j < i ==> !Substituted(names, doc, j);
        value := gen(drawn');
        drawn' := drawn' + 1;
      } else {
        assert !Substituted(names, doc, i);
      }
      vals' := vals'[i := value];
      i := i + 1;
    }
  }

  /**
   * Inserts the documents one by one through the prepared statement. `outcomes[k]` is the
   * engine's answer to the k-th write. One value buffer is reused for every document.
   */
  method Insert(ix: Index, s: State, gen: nat -> string, docs: seq<Record>, outcomes: seq<Option<string>>)
    returns (s': State, writes: seq<Row>, err: Option<Error>)
    requires |ix.fields| == |ix.names| && Distinct(ix.names)
    requires forall k :: 0 <= k < |docs| ==> |docs[k]| == |ix.names|
    requires |outcomes| == |docs|
    ensures writes == Writes(ix.names, docs, gen, s.drawn)
    ensures s'.drawn == s.drawn + DrawCount(ix.names, docs)
    ensures s'.rows == s.rows + Committed(writes, outcomes)
    ensures err == (if |docs| == 0 then None else AsError(outcomes[|docs| - 1]))
  {
    var vals: seq<string> := Zero(|ix.fields|);
    var kept: seq<Row> := [];
    var drawn := s.drawn;
    writes := [];
    err := None;
    var k := 0;
    while k < |docs|
      invariant 0 <= k <= |docs|
      invariant |vals| == |ix.names|
      invariant writes == Writes(ix.names, docs[..k], gen, s.drawn)
      invariant drawn == s.drawn + DrawCount(ix.names, docs[..k])
      invariant kept == Committed(writes, outcomes[..k])
      invariant err == (if k == 0 then None else AsError(outcomes[k - 1]))
    {
      vals, writes, kept, drawn := WriteOne(ix.names, docs, gen, s.drawn, outcomes, k, vals, writes, kept, drawn);
      err := AsError(outcomes[k]);
      k := k + 1;
    }
    assert docs[..|docs|] == docs;
    assert outcomes[..|outcomes|] == outcomes;
    s' := State(s.rows + kept, drawn);
  }

  /**
   * The body of the write loop for the k-th document: fill the buffer, execute the
   * statement (`outcomes[k]`), and keep the row when the write succeeded.
   */
  method WriteOne(names: seq<string>, docs: seq<Record>, gen: nat -> string, base: nat,
                  outcomes: seq<Option<string>>, k: nat, vals: seq<string>, writes: seq<Row>, kept: seq<Row>, drawn: nat)
    returns (vals': seq<string>, writes': seq<Row>, kept': seq<Row>, drawn': nat)
    requires Distinct(names)
    requires k < |docs| == |outcomes| && |docs[k]| == |names| && |vals| == |names|
    requires writes == Writes(names, docs[..k], gen, base)
    requires drawn == base + DrawCount(names, docs[..k])
    requires kept == Committed(writes, outcomes[..k])
    ensures |vals'| == |names|
    ensures writes' == Writes(names, docs[..k + 1], gen, base)
    ensures drawn' == base + DrawCount(names, docs[..k + 1])
    ensures kept' == Committed(writes', outcomes[..k + 1])
  {
    vals', drawn' := FillBuffer(names, docs[k], vals, gen, drawn);
    InsertStep(names, docs, gen, base, outcomes, writes, vals', k);
    writes' := writes + [vals'];
    kept' := if outcomes[k].None? then kept + [vals'] else kept;
  }

  /** One step of the write loop: the next bound row extends the writes, the commits and the draw count. */
  lemma InsertStep(names: seq<string>, docs: seq<Record>, gen: nat -> string, base: nat,
                   outcomes: seq<Option<string>>, writes: seq<Row>, v: Row, k: nat)
    requires k < |docs| == |outcomes|
    requires writes == Writes(names, docs[..k], gen, base)
    requires v == Encode(names, docs[k], gen(base + DrawCount(names, docs[..k])))
    ensures writes + [v] == Writes(names, docs[..k + 1], gen, base)
    ensures Committed(writes + [v], outcomes[..k + 1]) == Committed(writes, outcomes[..k]) + (if outcomes[k].None? then [v] else [])
    ensures DrawCount(names, docs[..k + 1]) == DrawCount(names, docs[..k]) + (if NeedsId(names, docs[k]) then 1 else 0)
  {
    WritesStep(names, docs, gen, base, k);
    CommittedStep(writes, v, outcomes, k);
    DrawCountStep(names, docs, k);
  }

  /** The rows bound for the documents, each encoded with the identifier of its own draw. */
  function Writes(names: seq<string>, docs: seq<Record>, gen: nat -> string, base: nat): (ws: seq<Row>)
    ensures |ws| == |docs|
  {
    if |docs| == 0 then []
    else
      var n := |docs| - 1;
      Writes(names, docs[..n], gen, base) + [Encode(names, docs[n], gen(base + DrawCount(names, docs[..n])))]
  }

  lemma WritesStep(names: seq<string>, docs: seq<Record>, gen: nat -> string, base: nat, k: nat)
    requires k < |docs|
    ensures Writes(names, docs[..k + 1], gen, base)
      == Writes(names, docs[..k], gen, base) + [Encode(names, docs[k], gen(base + DrawCount(names, docs[..k])))]
  {
    assert docs[..k + 1][..k] == docs[..k];
  }

  lemma {:induction false} WritesAt(names: seq<string>, docs: seq<Record>, gen: nat -> string, base: nat, m: nat)
    requires m < |docs|
    ensures |Writes(names, docs, gen, base)| == |docs|
    ensures Writes(names, docs, gen, base)[m] == Encode(names, docs[m], gen(base + DrawCount(names, docs[..m])))
  {
    var n := |docs| - 1;
    assert m <= n;
    assert docs[..n][..m] == docs[..m];
    if m < n {
      WritesAt(names, docs[..n], gen, base, m);
    } else if n > 0 {
      WritesAt(names, docs[..n], gen, base, n - 1);
    }
  }

  lemma {:induction false} WritesAll(names: seq<string>, docs: seq<Record>, gen: nat -> string, base: nat)
    ensures |Writes(names, docs, gen, base)| == |docs|
    ensures forall m :: 0 <= m < |docs| ==>
      Writes(names, docs, gen, base)[m] == Encode(names, docs[m], gen(base + DrawCount(names, docs[..m])))
  {
    forall m | 0 <= m < |docs|
      ensures Writes(names, docs, gen, base)[m] == Encode(names, docs[m], gen(base + DrawCount(names, docs[..m])))
    {
      WritesAt(names, docs, gen, base, m);
    }
  }

  lemma DrawCountStep(names: seq<string>, docs: seq<Record>, k: nat)
    requires k < |docs|
    ensures DrawCount(names, docs[..k + 1]) == DrawCount(names, docs[..k]) + (if NeedsId(names, docs[k]) then 1 else 0)
  {
    assert docs[..k + 1][..k] == docs[..k];
  }

  lemma CommittedStep(writes: seq<Row>, v: Row, outcomes: seq<Option<string>>, k: nat)
    requires |writes| == k < |outcomes|
    ensures Committed(writes + [v], outcomes[..k + 1]) == Committed(writes, outcomes[..k]) + (if outcomes[k].None? then [v] else [])
  {
    assert (writes + [v])[..k] == writes;
    assert outcomes[..k + 1][..k] == outcomes[..k];
  }

  /** Every write is kept when every write succeeded; a single failed write loses a row. */
  lemma {:induction false} CommittedAll(writes: seq<Row>, outcomes: seq<Option<string>>)
    requires |writes| == |outcomes|
    ensures |Committed(writes, outcomes)| <= |writes|
    ensures (forall k :: 0 <= k < |outcomes| ==> outcomes[k].None?) ==> Committed(writes, outcomes) == writes
    ensures (exists k :: 0 <= k < |outcomes| && outcomes[k].Some?) ==> |Committed(writes, outcomes)| < |writes|
  {
    if |writes| > 0 {
      var n := |writes| - 1;
      CommittedAll(writes[..n], outcomes[..n]);
      assert writes == writes[..n] + [writes[n]];
      if exists k :: 0 <= k < |outcomes| && outcomes[k].Some? {
        var k :| 0 <= k < |outcomes| && outcomes[k].Some?;
        if k < n {
          assert outcomes[..n][k].Some?;
        }
      }
    }
  }

  /**
   * A failed write followed by a successful last write is not reported: the error Insert
   * returns is the last write's, while the table misses the failed row.
   */
  lemma FailedWriteUnreported(writes: seq<Row>, outcomes: seq<Option<string>>, k: nat)
    requires |writes| == |outcomes|
    requires k < |outcomes| - 1 && outcomes[k].Some? && outcomes[|outcomes| - 1].None?
    ensures AsError(outcomes[|outcomes| - 1]) == None
    ensures |Committed(writes, outcomes)| < |writes|
  {
    CommittedAll(writes, outcomes);
  }

  /** The generator never repeats an identifier and never yields the empty one. */
  ghost predicate FreshIds(gen: nat -> string) {
    && (forall i: nat, j: nat :: i != j ==> gen(i) != gen(j))
    && (forall i: nat :: gen(i) != "")
  }

  /** A document that draws an identifier moves the draw count strictly past its own draw. */
  lemma {:induction false} DrawCountStrict(names: seq<string>, docs: seq<Record>, k1: nat, k2: nat)
    requires k1 < k2 <= |docs|
    requires NeedsId(names, docs[k1])
    ensures DrawCount(names, docs[..k1]) < DrawCount(names, docs[..k2])
    decreases k2
  {
    assert docs[..k2][..k2 - 1] == docs[..k2 - 1];
    if k2 - 1 > k1 {
      DrawCountStrict(names, docs, k1, k2 - 1);
    }
  }

  /** An identifier generated for any document of a batch was not drawn before the batch started. */
  lemma BatchIdFresh(names: seq<string>, docs: seq<Record>, gen: nat -> string, drawn: nat, k: nat)
    requires FreshIds(gen)
    requires k < |docs| && NeedsId(names, docs[k])
    ensures forall m: nat :: m < drawn ==> gen(m) != gen(drawn + DrawCount(names, docs[..k]))
  {
  }

  /**
   * Two documents of one batch that both get a generated identifier get different
   * identifiers, and neither identifier was drawn before the batch started.
   */
  lemma BatchIdsDistinct(names: seq<string>, docs: seq<Record>, gen: nat -> string, drawn: nat, k1: nat, k2: nat)
    requires FreshIds(gen)
    requires k1 < k2 < |docs|
    requires NeedsId(names, docs[k1]) && NeedsId(names, docs[k2])
    ensures gen(drawn + DrawCount(names, docs[..k1])) != gen(drawn + DrawCount(names, docs[..k2]))
    ensures forall m: nat :: m < drawn ==> gen(m) != gen(drawn + DrawCount(names, docs[..k1]))
    ensures forall m: nat :: m < drawn ==> gen(m) != gen(drawn + DrawCount(names, docs[..k2]))
  {
    DrawCountStrict(names, docs, k1, k2);
    BatchIdFresh(names, docs, gen, drawn, k1);
    BatchIdFresh(names, docs, gen, drawn, k2);
  }

  // ---------------------------------------------------------------------------
  // Get

  /**
   * How the engine steps a query's result rows. `delivered` is how many rows `rows.Next()`
   * hands out before a step fails (None: no step fails). The code never reads `rows.Err()`,
   * so a failing step ends the iteration as if the rows had run out. `scanErr(k)` is the
   * scanner's answer for the k-th row handed out.
   */
  datatype Cursor = Cursor(delivered: Option<nat>, scanErr: nat -> Option<string>)

  /** How many of n matching rows the cursor hands out. */
  function Handed(cur: Cursor, n: nat): (h: nat)
    ensures h <= n
    ensures cur.delivered.None? ==> h == n
    ensures cur.delivered.Some? ==> h == if cur.delivered.value < n then cur.delivered.value else n
  {
    if cur.delivered.Some? && cur.delivered.value < n then cur.delivered.value else n
  }

  /** The position of the "id" column among the fields. */
  function IdColumn(fields: seq<string>): nat {
    Find(fields, "id")
  }

  /** The row's "id" column holds id (the `WHERE id = ?` condition). */
  predicate RowHasId(fields: seq<string>, row: Row, id: string) {
    IdColumn(fields) < |row| && row[IdColumn(fields)] == id
  }

  /** The first position at or after `from` whose row has the given id, if any. */
  function FirstMatch(fields: seq<string>, rows: seq<Row>, id: string, from: nat): (r: Option<nat>)
    requires from <= |rows|
    ensures r.Some? ==>
      && from <= r.value < |rows|
      && RowHasId(fields, rows[r.value], id)
      && forall j :: from <= j < r.value ==> !RowHasId(fields, rows[j], id)
    ensures r.None? ==> forall j :: from <= j < |rows| ==> !RowHasId(fields, rows[j], id)
    decreases |rows| - from
  {
    if from == |rows| then None
    else if RowHasId(fields, rows[from], id) then Some(from)
    else FirstMatch(fields, rows, id, from + 1)
  }

  /**
   * Looks a document up by id. `queryErr` is the outcome of the query and `cur` how the
   * engine steps through the matching rows; only the first row handed out is scanned. When
   * no row is handed out (a miss, or a failing first step) the zero record comes back with
   * no error.
   */
  function Get(ix: Index, rows: seq<Row>, id: string, queryErr: Option<string>, cur: Cursor): (r: Result<Record>)
    ensures queryErr.Some? ==> r == Failure(Engine(queryErr.value))
    ensures r.Failure? ==> queryErr.Some? || cur.scanErr(0).Some?
    ensures r.Success? ==>
      || r.value == Zero(|ix.names|)
      || exists k :: 0 <= k < |rows| && RowHasId(ix.fields, rows[k], id) && r.value == Decode(ix.names, ix.fields, rows[k])
  {
    if queryErr.Some? then Failure(Engine(queryErr.value))
    else
      match FirstMatch(ix.fields, rows, id, 0)
      case None => Success(Zero(|ix.names|))
      case Some(k) =>
        if Handed(cur, 1) == 0 then Success(Zero(|ix.names|))
        else if cur.scanErr(0).Some? then Failure(Engine(cur.scanErr(0).value))
        else Success(Decode(ix.names, ix.fields, rows[k]))
  }

  /**
   * Get answers with the first row, in table order, whose id matches: its scan, or the
   * scanner's error. When the first step of the cursor fails instead, the error is not
   * read and Get answers as for a miss.
   */
  lemma GetFirst(ix: Index, rows: seq<Row>, id: string, cur: Cursor, k: nat)
    requires k < |rows| && RowHasId(ix.fields, rows[k], id)
    requires forall j :: 0 <= j < k ==> !RowHasId(ix.fields, rows[j], id)
    ensures cur.delivered == Some(0) ==> Get(ix, rows, id, None, cur) == Success(Zero(|ix.names|))
    ensures cur.delivered != Some(0) && cur.scanErr(0).Some? ==>
      Get(ix, rows, id, None, cur) == Failure(Engine(cur.scanErr(0).value))
    ensures cur.delivered != Some(0) && cur.scanErr(0).None? ==>
      Get(ix, rows, id, None, cur) == Success(Decode(ix.names, ix.fields, rows[k]))
  {
    var m := FirstMatch(ix.fields, rows, id, 0);
    assert m.Some?;
  }

  /**
   * Get on an id no row has succeeds with the zero record, whatever the cursor would
   * answer: the miss is not reported as an error.
   */
  lemma GetMiss(ix: Index, rows: seq<Row>, id: string, cur: Cursor)
    requires forall j :: 0 <= j < |rows| ==> !RowHasId(ix.fields, rows[j], id)
    ensures Get(ix, rows, id, None, cur) == Success(Zero(|ix.names|))
    ensures forall i :: 0 <= i < |ix.names| ==> Get(ix, rows, id, None, cur).value[i] == ""
  {
  }

  /** A valid index has an "id" column. */
  lemma IdColumnExists(ix: Index)
    requires Valid(ix)
    ensures IdColumn(ix.fields) < |ix.fields| && ix.fields[IdColumn(ix.fields)] == "id"
  {
    var j :| 0 <= j < |ix.names| && EqualFold(ix.names[j], "id");
    LowerIsIdIffFold(ix.names[j]);
    assert ix.fields[j] == "id";
  }

  /**
   * Round trip: after a document is written into a table where no other row has its
   * id, Get with that id returns the document on every field; only an empty "Id" reads
   * back as the generated identifier. The requirement that the index has an "id" column
   * holds for every index NewIndex builds (IdColumnExists).
   */
  lemma InsertGetRoundTrip(ix: Index, rows: seq<Row>, doc: Record, newId: string, cur: Cursor)
    requires Valid(ix) && Distinct(ix.fields)
    requires cur.delivered != Some(0) && cur.scanErr(0).None?
    requires |doc| == |ix.names|
    requires IdColumn(ix.fields) < |ix.fields|
    requires var id := Encode(ix.names, doc, newId)[IdColumn(ix.fields)];
      forall j :: 0 <= j < |rows| ==> !RowHasId(ix.fields, rows[j], id)
    ensures var id := Encode(ix.names, doc, newId)[IdColumn(ix.fields)];
      var r := Get(ix, rows + [Encode(ix.names, doc, newId)], id, None, cur);
      && r.Success?
      && |r.value| == |doc|
      && (forall i :: 0 <= i < |doc| && !Substituted(ix.names, doc, i) ==> r.value[i] == doc[i])
      && (forall i :: Substituted(ix.names, doc, i) ==> r.value[i] == newId)
  {
    var row := Encode(ix.names, doc, newId);
    var id := row[IdColumn(ix.fields)];
    var all := rows + [row];
    assert all[|rows|] == row;
    GetFirst(ix, all, id, cur, |rows|);
    DecodeEncode(ix.names, doc, newId);
  }

  /**
   * Round trip for a document with its identifier set: Get returns exactly the document.
   * As for InsertGetRoundTrip, the "id" column requirement holds for every valid index
   * (IdColumnExists).
   */
  lemma InsertGetUnchanged(ix: Index, rows: seq<Row>, doc: Record, newId: string, cur: Cursor)
    requires Valid(ix) && Distinct(ix.fields)
    requires cur.delivered != Some(0) && cur.scanErr(0).None?
    requires |doc| == |ix.names|
    requires !NeedsId(ix.names, doc)
    requires IdColumn(ix.fields) < |doc|
    requires forall j :: 0 <= j < |rows| ==> !RowHasId(ix.fields, rows[j], doc[IdColumn(ix.fields)])
    ensures Get(ix, rows + [Encode(ix.names, doc, newId)], doc[IdColumn(ix.fields)], None, cur) == Success(doc)
  {
    var row := Encode(ix.names, doc, newId);
    assert row == doc;
    InsertGetRoundTrip(ix, rows, doc, newId, cur);
    var r := Get(ix, rows + [row], doc[IdColumn(ix.fields)], None, cur);
    assert r.value == doc;
  }

  /** A field spelled exactly "Id" is stored non-empty when the generator never yields "". */
  lemma StoredIdNonEmpty(ix: Index, doc: Record, gen: nat -> string, n: nat, i: nat)
    requires FreshIds(gen)
    requires |doc| == |ix.names|
    requires i < |ix.names| && ix.names[i] == "Id"
    ensures Encode(ix.names, doc, gen(n))[i] != ""
  {
  }

  // ---------------------------------------------------------------------------
  // Delete

  /** Accepts the rows whose id differs from the given one. */
  function KeepsOthers(fields: seq<string>, id: string): Row -> bool {
    row => !RowHasId(fields, row, id)
  }

  /**
   * Deletes every row with the given id; `execErr` is the engine's answer. On error the
   * table is left as it was.
   */
  function Delete(ix: Index, rows: seq<Row>, id: string, execErr: Option<string>): (r: (Option<Error>, seq<Row>))
    ensures execErr.Some? ==> r == (Some(Engine(execErr.value)), rows)
    ensures execErr.None? ==> r.0 == None && |r.1| <= |rows|
    ensures execErr.None? ==> forall j :: 0 <= j < |r.1| ==> !RowHasId(ix.fields, r.1[j], id)
  {
    if execErr.Some? then (Some(Engine(execErr.value)), rows)
    else
      var kept := Filter(rows, KeepsOthers(ix.fields, id));
      FilterAll(rows, KeepsOthers(ix.fields, id));
      FilterAccepted(rows, KeepsOthers(ix.fields, id));
      (None, kept)
  }

  /** After a successful Delete a row remains exactly when it was there and has another id. */
  lemma DeleteMembers(ix: Index, rows: seq<Row>, id: string, row: Row)
    ensures Delete(ix, rows, id, None).0 == None
    ensures row in Delete(ix, rows, id, None).1 <==> row in rows && !RowHasId(ix.fields, row, id)
  {
    FilterMembers(rows, KeepsOthers(ix.fields, id), row);
  }

  /** Delete keeps the remaining rows in their order: it works on each part of the table independently. */
  lemma DeleteKeepsOrder(ix: Index, a: seq<Row>, b: seq<Row>, id: string)
    ensures Delete(ix, a + b, id, None).1 == Delete(ix, a, id, None).1 + Delete(ix, b, id, None).1
  {
    FilterAppend(a, b, KeepsOthers(ix.fields, id));
  }

  /** Delete of an id no row has succeeds and changes nothing. */
  lemma DeleteMiss(ix: Index, rows: seq<Row>, id: string)
    requires forall j :: 0 <= j < |rows| ==> !RowHasId(ix.fields, rows[j], id)
    ensures Delete(ix, rows, id, None) == (None, rows)
  {
    FilterAll(rows, KeepsOthers(ix.fields, id));
  }

  /** After a successful Delete, Get of that id is a miss: it returns the zero record. */
  lemma DeleteThenGet(ix: Index, rows: seq<Row>, id: string, cur: Cursor)
    ensures Get(ix, Delete(ix, rows, id, None).1, id, None, cur) == Success(Zero(|ix.names|))
  {
    var rest := Delete(ix, rows, id, None).1;
    forall j | 0 <= j < |rest|
      ensures !RowHasId(ix.fields, rest[j], id)
    {
      DeleteMembers(ix, rows, id, rest[j]);
    }
    GetMiss(ix, rest, id, cur);
  }

  // ---------------------------------------------------------------------------
  // Search

  /**
   * Runs a full-text query. The engine's MATCH is the predicate `accepts`; the rows it
   * accepts come back in table order. The cursor hands out the first `Handed` of them and
   * each is scanned in turn; the first failing scan aborts the search, while a failing step
   * of the cursor silently ends it with the rows scanned so far.
   */
  method Search(ix: Index, rows: seq<Row>, accepts: Row -> bool, queryErr: Option<string>, cur: Cursor)
    returns (r: Result<seq<Record>>)
    ensures queryErr.Some? ==> r == Failure(Engine(queryErr.value))
    ensures r.Success? <==>
      queryErr.None? && forall k :: 0 <= k < Handed(cur, |Filter(rows, accepts)|) ==> cur.scanErr(k).None?
    ensures r.Failure? && queryErr.None? ==>
      exists k :: 0 <= k < Handed(cur, |Filter(rows, accepts)|) && cur.scanErr(k).Some?
        && r.error == ScanFailed(cur.scanErr(k).value)
        && forall j :: 0 <= j < k ==> cur.scanErr(j).None?
    ensures r.Success? ==>
      && |r.value| == Handed(cur, |Filter(rows, accepts)|)
      && forall i :: 0 <= i < |r.value| ==> r.value[i] == Decode(ix.names, ix.fields, Filter(rows, accepts)[i])
    ensures r.Success? && cur.delivered.None? ==>
      forall k :: 0 <= k < |rows| && accepts(rows[k]) ==> Decode(ix.names, ix.fields, rows[k]) in r.value
  {
    if queryErr.Some? {
      return Failure(Engine(queryErr.value));
    }
    var matched := Filter(rows, accepts);
    var n := Handed(cur, |matched|);
    var results: seq<Record> := [];
    var i := 0;
    while i < n
      invariant 0 <= i <= n
      invariant |results| == i
      invariant forall j :: 0 <= j < i ==> results[j] == Decode(ix.names, ix.fields, matched[j])
      invariant forall j :: 0 <= j < i ==> cur.scanErr(j).None?
    {
      var e := cur.scanErr(i);
      if e.Some? {
        assert !(forall j :: 0 <= j < n ==> cur.scanErr(j).None?) by {
          assert i < n && cur.scanErr(i).Some?;
        }
        return Failure(ScanFailed(e.value));
      }
      results := results + [Decode(ix.names, ix.fields, matched[i])];
      i := i + 1;
    }
    if cur.delivered.None? {
      ScansCoverAccepted(ix, rows, accepts, results);
    }
    return Success(results);
  }

  /** Scans of the accepted rows, position by position, include the scan of every accepted row. */
  lemma ScansCoverAccepted(ix: Index, rows: seq<Row>, accepts: Row -> bool, results: seq<Record>)
    requires |results| == |Filter(rows, accepts)|
    requires forall j :: 0 <= j < |results| ==> results[j] == Decode(ix.names, ix.fields, Filter(rows, accepts)[j])
    ensures forall k :: 0 <= k < |rows| && accepts(rows[k]) ==> Decode(ix.names, ix.fields, rows[k]) in results
  {
    forall k | 0 <= k < |rows| && accepts(rows[k])
      ensures Decode(ix.names, ix.fields, rows[k]) in results
    {
      FilterMembers(rows, accepts, rows[k]);
      var j :| 0 <= j < |Filter(rows, accepts)| && Filter(rows, accepts)[j] == rows[k];
      assert results[j] == Decode(ix.names, ix.fields, rows[k]);
    }
  }

  /**
   * Search adds no filtering of its own: what it returns are scans of rows the engine accepted.
   * This only specialises Seqs.FilterMembers to table rows and the engine's MATCH predicate.
   */
  lemma SearchOnlyAccepted(rows: seq<Row>, accepts: Row -> bool, row: Row)
    ensures row in Filter(rows, accepts) <==> row in rows && accepts(row)
  {
    FilterMembers(rows, accepts, row);
  }
}
