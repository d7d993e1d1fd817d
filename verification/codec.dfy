/**
 * The row codec of the index: how a record's field values become the values bound to
 * the insert statement (with identifier generation), and how a stored row is scanned
 * back into a record by column name.
 *
 * A record is the list of its field values in declaration order; the declared field
 * names travel beside it (they are what reflection reads in hlx.go).
 */
module Codec {
  import opened Text
  import opened Seqs

  /** Field values of one document, in the declaration order of its type. */
  type Record = seq<string>
  /** Column values of one stored row, in the order of the index's fields. */
  type Row = seq<string>

  /** The column names inferred from declared field names: each name lower-cased, order kept. */
  function InferredFields(names: seq<string>): (r: seq<string>)
    ensures |r| == |names|
    ensures forall i :: 0 <= i < |names| ==> IsLowerCase(r[i]) && EqualFold(r[i], names[i])
  {
    var fs := seq(|names|, i requires 0 <= i < |names| => ToLower(names[i]));
    assert forall i :: 0 <= i < |names| ==> IsLowerCase(fs[i]) && EqualFold(fs[i], names[i]) by {
      forall i | 0 <= i < |names|
        ensures IsLowerCase(fs[i]) && EqualFold(fs[i], names[i])
      {
        LowerIsCanonical(names[i], fs[i]);
      }
    }
    fs
  }

  /** Some declared field is called "id" in any letter case. */
  predicate DeclaresId(names: seq<string>) {
    exists i :: 0 <= i < |names| && EqualFold(names[i], "id")
  }

  /** The field at position i gets a generated identifier: it is spelled exactly "Id" and its value is empty. */
  predicate Substituted(names: seq<string>, values: Record, i: int) {
    0 <= i < |names| && i < |values| && names[i] == "Id" && values[i] == ""
  }

  /** The document draws one identifier from the generator when it is encoded. */
  predicate NeedsId(names: seq<string>, values: Record) {
    exists i :: 0 <= i < |names| && Substituted(names, values, i)
  }

  /** The values bound for one document: each field's value, except an empty "Id" becomes newId. */
  function Encode(names: seq<string>, values: Record, newId: string): (r: Row)
    ensures |r| == |values|
  {
    seq(|values|, i requires 0 <= i < |values| => if Substituted(names, values, i) then newId else values[i])
  }

  /**
   * Encoding changes nothing but an empty field spelled "Id": every non-empty value and
   * every other field is bound as it is, and an "Id" field is never bound empty when the
   * new identifier is not.
   */
  lemma EncodeKeeps(names: seq<string>, values: Record, newId: string)
    ensures var r := Encode(names, values, newId);
      && (forall i :: 0 <= i < |r| && values[i] != "" ==> r[i] == values[i])
      && (forall i :: 0 <= i < |r| && (i >= |names| || names[i] != "Id") ==> r[i] == values[i])
      && (newId != "" ==> forall i :: 0 <= i < |r| && i < |names| && names[i] == "Id" ==> r[i] != "")
  {
  }

  /** The zero value of a record type with n fields: every field empty. */
  function Zero(n: nat): Record {
    seq(n, _ => "")
  }

  /**
   * Scanning a row into a record: each declared field takes the value of the first column
   * named like its lower-cased name; a field with no such column keeps its zero value.
   */
  function Decode(names: seq<string>, fields: seq<string>, row: Row): (r: Record)
    ensures |r| == |names|
    ensures forall j {:trigger r[j]} :: 0 <= j < |names| && ToLower(names[j]) !in fields ==> r[j] == ""
    ensures forall j, k {:trigger r[j], fields[k]} ::
      (0 <= j < |names| && 0 <= k < |fields| && k < |row| &&
       fields[k] == ToLower(names[j]) && ToLower(names[j]) !in fields[..k]) ==> r[j] == row[k]
  {
    seq(|names|, j requires 0 <= j < |names| =>
      var k := Find(fields, ToLower(names[j]));
      if k < |row| && k < |fields| then row[k] else "")
  }

  /**
   * Scanning an encoded row back with the index's own fields gives every value the
   * document had, except that an empty "Id" reads back as the generated identifier.
   */
  lemma DecodeEncode(names: seq<string>, values: Record, newId: string)
    requires |values| == |names|
    requires Distinct(InferredFields(names))
    ensures var r := Decode(names, InferredFields(names), Encode(names, values, newId));
      && |r| == |values|
      && (forall i :: 0 <= i < |names| && !Substituted(names, values, i) ==> r[i] == values[i])
      && (forall i :: Substituted(names, values, i) ==> r[i] == newId)
  {
    var fields := InferredFields(names);
    forall j | 0 <= j < |names|
      ensures Find(fields, ToLower(names[j])) == j
    {
      FindDistinct(fields, j);
    }
  }

  /** A document whose "Id" is already set, or that has no field spelled "Id", reads back unchanged. */
  lemma DecodeEncodeUnchanged(names: seq<string>, values: Record, newId: string)
    requires |values| == |names|
    requires Distinct(InferredFields(names))
    requires !NeedsId(names, values)
    ensures Decode(names, InferredFields(names), Encode(names, values, newId)) == values
  {
    DecodeEncode(names, values, newId);
  }

  /** A Go field name is exported when it starts with an upper-case letter; reflection reads only those values. */
  predicate Exported(name: string) {
    |name| > 0 && IsUpper(name[0])
  }

  /**
   * The schema check reads only field names, so it also accepts an unexported identifier
   * field such as "id"; reading that field's value when inserting is a run-time panic.
   */
  lemma UnexportedIdAccepted()
    ensures DeclaresId(["id", "Title"])
    ensures !Exported("id")
  {
    var names := ["id", "Title"];
    assert EqualFold(names[0], "id");
  }

  /**
   * The schema check accepts an identifier field spelled in any case, but generation
   * looks for the exact spelling "Id": an exported field spelled otherwise ("ID") that
   * is left empty is stored empty.
   */
  lemma IdSpellingNotSubstituted(names: seq<string>, values: Record, newId: string, i: nat)
    requires |values| == |names|
    requires i < |names| && EqualFold(names[i], "id") && Exported(names[i]) && names[i] != "Id" && values[i] == ""
    ensures DeclaresId(names)
    ensures Encode(names, values, newId)[i] == ""
  {
  }

  /** A concrete instance of the spelling mismatch: a type with fields ID and Title. */
  lemma UpperIdExample()
    ensures DeclaresId(["ID", "Title"])
    ensures Encode(["ID", "Title"], ["", "greeting"], "generated") == ["", "greeting"]
  {
    IdSpellingNotSubstituted(["ID", "Title"], ["", "greeting"], "generated", 0);
    assert Encode(["ID", "Title"], ["", "greeting"], "generated")[1] == "greeting";
  }

  /** With distinct declared names at most one field is substituted. */
  lemma SubstitutedUnique(names: seq<string>, values: Record, i: int, j: int)
    requires Distinct(names)
    requires Substituted(names, values, i) && Substituted(names, values, j)
    ensures i == j
  {
  }
}
