# hlx in Dafny

A model of the core of hlx, a typed full-text index on SQLite FTS5. Three parts are modelled:

- **Construction** (`NewIndex`). The index reads the declared field names of a record type and lower-cases them in order. It refuses a type with no field named `id` in any letter case. It then builds the `CREATE VIRTUAL TABLE … USING FTS5(_id, …);` statement and the parameterised `INSERT INTO fulltext_search (…) VALUES (?,…)` statement.
- **The row codec.** A document's field values are bound position by position. An empty field spelled exactly `Id` receives a generated identifier. A stored row is scanned back by column name.
- **The index operations** (`Insert`, `Get`, `Delete`, `Search`, `Fields`). They work over an abstract table of rows.

Layout, one module per file:

| file | module | contents |
|---|---|---|
| outcomes.dfy | `Outcomes` | `Option`, `Result`, the `Error` kinds and their messages |
| seqs.dfy | `Seqs` | first occurrence, distinctness, order-preserving `Filter` |
| text.dfy | `Text` | ASCII lower-casing, case-insensitive equality, `Join`/`Split` |
| statements.dfy | `Statements` | the INSERT and CREATE statement texts and their properties |
| codec.dfy | `Codec` | field inference, `Encode` (identifier substitution), `Decode` (scan by name) |
| hlx.dfy | `Hlx` | `NewIndex`, `Insert`, `Get`, `Delete`, `Search`, `Fields` |

How the world outside the code is represented:

- The SQLite engine is a `seq<Row>`. A row holds one text value per field, in field order.
- Every foreign call is replaced by its error outcome, passed in as `Option<string>`. These calls are opening the database, executing the CREATE statement, preparing the insert, each `Exec`, each query and the `Exec` of `Delete`.
- A query's result rows are stepped by a `Cursor`. `delivered` is how many rows `rows.Next()` hands out before a step fails; `None` means no step fails. `scanErr(k)` is the outcome of `StructScan` on the k-th row handed out. The code never reads `rows.Err()`, so a failing step looks the same as running out of rows.
- The FTS5 `MATCH` operator is an opaque predicate `accepts: Row -> bool`.
- `uuid.New()` is a function `gen: nat -> string` indexed by draw number. `State.drawn` counts the draws so far. Lemmas that need fresh identifiers assume `FreshIds(gen)`: the generator is injective and never returns `""`.
- Go reflection is replaced by an explicit `seq<string>` of declared field names. A record is a `seq<string>` of values in declaration order.

## Model

| member | source | states |
|---|---|---|
| Text.LowerIsCanonical | hlx.go:44 | the lower-cased name is the one string that has no upper-case letter and equals the declared name up to case |
| Text.LowerIsIdIffFold | hlx.go:44-48 | comparing the lower-cased name with `id` is the same as comparing the declared name with `id` case-insensitively |
| Codec.InferredFields | hlx.go:42-49 | inferred fields have the declared names' length and order, and each is lower-case and equal to its declared name up to case; by `Text.LowerIsCanonical` that makes each the lower-cased name |
| Hlx.Fields | hlx.go:77-79 | returns the fields fixed at construction, as stated by `Hlx.NewIndex` |
| Hlx.NewIndex | hlx.go:32-75 | construction fails with "Id field is missing" exactly when no field is `id` in any case, and then sends nothing to the engine; otherwise the open, create and prepare errors are returned in that order; success happens exactly when all three succeed; `Fields()` then returns the lower-cased names in declaration order, and the prepared text is the insert statement over those fields |
| Statements.InsertQuery | hlx.go:60-67 | builds the prepared text from the fields; what it means is stated by `Statements.InsertQueryRoundTrip` |
| Statements.InsertQueryRoundTrip | hlx.go:60-67 | parsing the insert statement back gives exactly the field list in order and exactly one `?` placeholder per field |
| Statements.CreateStatement | database.go:52-56 | builds the CREATE text by loop and slice; what it means is stated by `Statements.CreateStatementIsJoin`, `Statements.CreateStatementEmpty`, `Statements.CreateStatementColumns` and `Statements.CreateStatementNoDanglingComma` |
| Statements.AppendColumns | database.go:53-55 | the column loop keeps its prefix and, when it ran at least once, leaves a trailing comma |
| Statements.CreateStatementIsJoin | database.go:52-56 | the text before the slice always ends in a comma, so the loop-and-slice construction equals `FTS5(` + `_id` and ` name` for each field, joined by commas, + `);` |
| Statements.CreateStatementEmpty | database.go:52-56 | with no fields the statement is exactly `CREATE VIRTUAL TABLE IF NOT EXISTS fulltext_search USING FTS5(_id);` |
| Statements.CreateStatementColumns | database.go:52-55 | the statement starts with `…USING FTS5(_id` and ends with `);`; its column list splits into \|doc\|+1 columns, `_id` followed by ` name` for each field in order |
| Statements.CreateStatementNoDanglingComma | database.go:56 | the statement never contains `,)` when no field name contains a comma |
| Hlx.FillBuffer | hlx.go:112-118 | after one document the reused buffer holds exactly that document's encoding, whatever it held before; one identifier is drawn exactly when a field spelled `Id` is empty |
| Hlx.WriteOne | hlx.go:105-121 | one pass of the write loop extends the bound rows by the next document's encoding, adds it to the table exactly when its write succeeds, and advances the draw count |
| Hlx.Insert | hlx.go:102-125 | k documents give exactly k writes in argument order, each the encoding of its own document; there is no early exit; only successful writes reach the table, in order; the returned error is the last write's only |
| Hlx.WritesAll | hlx.go:105-121 | the k-th bound row is the k-th document with an empty `Id` replaced by the generator's value for that draw; it depends on no other document |
| Hlx.CommittedAll | hlx.go:121 | the table receives every write exactly when every write succeeds; any failure loses that row |
| Hlx.FailedWriteUnreported | hlx.go:121-124 | a failed write followed by a successful last write returns no error, although a row is missing |
| Hlx.BatchIdFresh | hlx.go:115-117 | the identifier generated for any document of a batch, including a batch with a single generated identifier, was not drawn in an earlier call |
| Hlx.BatchIdsDistinct | hlx.go:115-117 | two documents of one batch that both get generated identifiers get different ones, and neither was drawn in an earlier call |
| Hlx.StoredIdNonEmpty | hlx.go:115-117 | a field spelled `Id` is never stored empty |
| Codec.Encode | hlx.go:112-118 | one bound value per field; which values are bound is stated by `Codec.EncodeKeeps` and `Codec.DecodeEncode` |
| Codec.EncodeKeeps | hlx.go:112-118 | every non-empty value and every field not spelled `Id` is bound unchanged, and an `Id` field is never bound empty when the new identifier is not |
| Codec.Decode | hlx.go:90 | the scan gives one value per declared field: the value of the first column named like the lower-cased field name, or `""` when no column has that name |
| Codec.DecodeEncode | hlx.go:112-118 | scanning an encoded row back by column name returns every field value unchanged, except an empty `Id`, which reads back as the generated identifier |
| Codec.DecodeEncodeUnchanged | hlx.go:112-118 | a document that draws no identifier scans back equal to itself |
| Codec.UnexportedIdAccepted | hlx.go:42-49 | the schema check reads only names, so a type whose identifier field is the unexported `id` passes it |
| Codec.IdSpellingNotSubstituted | hlx.go:115 | an exported field accepted as the identifier but not spelled exactly `Id` (that is, `ID`) is stored empty when left empty |
| Codec.UpperIdExample | hlx.go:115 | for a type with fields `ID, Title` the schema check passes but an empty `ID` is bound as `""` |
| Codec.SubstitutedUnique | hlx.go:115 | with distinct declared names at most one field per document is substituted |
| Hlx.FirstMatch | hlx.go:83-89 | returns the lowest row position at or after the start whose `id` column equals the argument; returns none exactly when no such row exists |
| Hlx.Get | hlx.go:81-94 | a query error is returned as is; any other error is the scanner's; a success is either the zero record or the scan of a row whose `id` column equals the argument |
| Hlx.GetFirst | hlx.go:81-94 | when some row matches, Get answers with the first matching row in table order: its scan, or the scanner's error; when the cursor's first step fails, the failure is not read and Get returns the zero record with no error |
| Hlx.GetMiss | hlx.go:89-94 | Get on an id no row has succeeds with the all-empty zero record, whatever the cursor would answer |
| Hlx.InsertGetRoundTrip | hlx.go:81-125 | after a document is written into a table with no other row of its id, Get with that id returns it equal on every field; an empty `Id` reads back as the generated identifier |
| Hlx.InsertGetUnchanged | hlx.go:81-125 | a document whose id is set is returned by Get exactly as inserted |
| Hlx.Delete | hlx.go:97-100 | an engine error is returned and the table is unchanged; otherwise no error, the table does not grow, and no remaining row has the deleted id |
| Hlx.DeleteMembers | hlx.go:97-100 | after Delete a row remains exactly when it was present and has another id |
| Hlx.DeleteKeepsOrder | hlx.go:97-100 | Delete distributes over concatenation of the table, so the remaining rows keep their order |
| Hlx.DeleteMiss | hlx.go:97-100 | deleting an id no row has succeeds and changes nothing |
| Hlx.DeleteThenGet | hlx.go:97-100 | after Delete, Get of the same id is a miss |
| Hlx.Search | hlx.go:127-144 | a query error is returned as is; Search succeeds exactly when every row the cursor hands out scans without error; otherwise it fails with "struct scan failed" wrapping the first failing scan's error; a success holds the scans of the accepted rows, in table order, up to where the cursor stopped; when no step of the cursor fails, every accepted row's scan is in it |
| Hlx.SearchOnlyAccepted | hlx.go:128 | a row is among the search rows exactly when it is in the table and the engine accepts it, so Search does no filtering of its own; this specialises `Seqs.FilterMembers` |

## Behaviour worth knowing

The model follows the code as written in each case below.

- **Missing document.** On a miss, `Get` returns the zero record and no error (hlx.go:89-94; `Hlx.GetMiss`). The test at hlx_test.go:362-365 expects a "document not found" error.
- **Insert errors.** `Insert` keeps writing after a failed write and returns only the last write's error (hlx.go:121-124; `Hlx.Insert`, `Hlx.FailedWriteUnreported`). An earlier failure is not reported when the last write succeeds.
- **Iteration errors.** `Get` and `Search` call `rows.Next()` but never `rows.Err()` (hlx.go:89, hlx.go:135). A step that fails ends the iteration silently. `Search` then succeeds with the rows scanned so far, and `Get` returns the zero record with no error when its first step fails (`Hlx.Search`, `Hlx.GetFirst`).
- **Spelling of `Id`.** The schema check accepts `id` in any case (hlx.go:46). Identifier generation fires only on the exact spelling `Id` (hlx.go:115; `Codec.IdSpellingNotSubstituted`, `Codec.UpperIdExample`).
- **Unexported fields.** The schema check reads only field names (hlx.go:42-49), so it accepts an unexported `id` field (hlx.go:46; `Codec.UnexportedIdAccepted`). `Insert` reads every field's value with `Interface()` (hlx.go:114), which panics on an unexported field. Such a type is accepted by `NewIndex`, and then every `Insert` with a document panics before its first write.
- **Argument type of `initDatabase`.** It is declared with a `DocType` argument (database.go:46), but `NewIndex` passes its `fields` (hlx.go:55). Both are a `seq<string>` here.

## Left out

- Opening the database and `validateURI` (database.go:11-44) are file-system and driver I/O. Their failure is the `openErr` parameter of `NewIndex`.
- SQL execution, preparation, queries, `rows.Next()` and `StructScan` are foreign calls. Only their error outcomes and where the cursor stops are modelled. A failed write is taken to leave the table unchanged. The text of an iteration error is not modelled, since the code never reads it.
- The FTS5 query language (boolean operators, column filters, phrases) belongs to SQLite. `Search` takes an opaque predicate, and rows come back in table order.
- The format of generated identifiers (RFC 4122 UUID text) is not modelled. Only freshness and non-emptiness are assumed.
- The `_id` column declared by the CREATE statement is never bound by `Insert`, and it is not part of a modelled row. `SELECT *` returns it (hlx.go:83, hlx.go:128), but no struct field maps to it. A scanner that refuses columns it cannot map, such as sqlx's default `StructScan`, therefore fails on every stored row. `Hlx.InsertGetRoundTrip` (which requires `cur.scanErr(0).None?`) and the success clauses of `Hlx.Search` apply only when the scanner tolerates that column; the model leaves the scanner's answer as the `scanErr` parameter.
- `strings.ToLower` is modelled on ASCII letters only. Non-ASCII case mapping is not modelled; Go field names used here are ASCII.
- Non-string field types are not modelled. Every field value is text, so `value == ""` is the empty-string test.
- `InsertMap`, `WithDB`, `WithPragmas`, `WithSQLiteDriver`, `Document` and `DocType` are used by the tests and examples, but their definitions are not part of this model.
- The benchmarks and examples are not modelled: they do timing and printing only.
- Hlx.InsertGetRoundTrip: requires the lower-cased field names to be pairwise distinct. With two fields such as `Id` and `ID`, the CREATE statement declares a duplicate column, which SQLite rejects; that engine behaviour is outside the model.
- Hlx.Insert: requires the declared field names to be distinct, as Go requires of struct fields. Under that requirement a document draws at most one identifier.
- Hlx.Fields: the accessor carries no contract of its own. What it returns is stated in `Hlx.NewIndex`'s contract. Go returns the index's own slice, so writes a caller makes into it show up in later calls; the model does not represent this aliasing.
- Statements.InsertQuery: the function carries no contract of its own. Its meaning is stated by `Statements.InsertQueryRoundTrip`.
- Statements.CreateStatement: the function carries no contract of its own. Its meaning is stated by the `Statements.CreateStatement…` lemmas.
- Hlx.FillBuffer: declared fields are taken to be exported. hlx.go:114 panics on an unexported field, and the scanner skips such fields; the model has no panic outcome.
- Hlx.WriteOne: declared fields are taken to be exported, for the same reason: hlx.go:114 panics on an unexported field before the write.
- Hlx.Insert: declared fields are taken to be exported. With an unexported field, hlx.go:114 panics on the first document before any write, so "k writes, no early exit" does not hold there.
- Codec.Decode: declared fields are taken to be exported. The scanner skips unexported fields, so they keep their zero value.
- Codec.IdSpellingNotSubstituted: stated for exported spellings only (`ID`). For the unexported `id` and `iD` nothing is stored, because hlx.go:114 panics.
