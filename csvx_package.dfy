/** The filters of the earlier `csvx` package (csvx/__init__.py).

    Their row loops are the same code as those of `tabstream`, and so are their
    extractors; the difference lies in where the header is pulled. A `csvx`
    filter is a generator that pulls the header itself, inside its body, and in
    Python 2 a StopIteration escaping a generator body ends that generator
    quietly. So on an input without a header a `csvx` filter yields nothing and
    raises only what the input raised, where the `tabstream` filter raises
    StopIteration. */
module CsvxPackage {
  import opened Streams
  import opened Extractors
  import Tabstream

  /** The run of a `csvx` filter on an input without a header. */
  function Quiet(s: Stream): Stream
    requires s.Headless?
  {
    Headless(s.failure)
  }

  // ---------------------------------------------------------------- pad

  /** The run of `pad`. */
  function Padded(s: Stream): Stream
  {
    if s.Headless? then Quiet(s) else Tabstream.Padded(s)
  }

  /** `pad`, the generator loop: the loop itself is `Tabstream.Pad`. */
  method Pad(s: Stream) returns (r: Stream)
    ensures r == Padded(s)
  {
    if s.Headless? {
      return Headless(s.failure);
    }
    r := Tabstream.Pad(s);
  }

  /** What `pad` promises: the header is re-emitted first and unchanged; each
      row up to the first long one comes out padded with empty strings to the
      header's length (a row of that length unchanged); the first row longer
      than the header raises ValueError and ends the run; an input without a
      header gives an empty run that raises only what the input raised. */
  lemma PadContract(s: Stream)
    ensures s.Headless? ==> Padded(s) == Headless(s.failure)
    ensures s.Tagged? ==> Padded(s).Tagged? && Padded(s).header == s.header
    ensures s.Tagged? ==> |Padded(s).rows| <= |s.rows|
    ensures s.Tagged? ==> forall k :: 0 <= k < |Padded(s).rows| ==>
              |s.rows[k]| <= |s.header| && |Padded(s).rows[k]| == |s.header| &&
              Padded(s).rows[k] == s.rows[k] + Fill(|s.header| - |s.rows[k]|)
    ensures s.Tagged? && |Padded(s).rows| < |s.rows| ==>
              |s.rows[|Padded(s).rows|]| > |s.header| &&
              Padded(s).failure == Some(RowTooLong(s.rows[|Padded(s).rows|]))
    ensures s.Tagged? && |Padded(s).rows| == |s.rows| ==> Padded(s).failure == s.failure
  {
    if s.Tagged? {
      Tabstream.PadContract(s);
    }
  }

  /** The two versions of `pad` differ on one input only: an empty one, which
      `csvx` passes through as an empty run and `tabstream` answers with
      StopIteration. */
  lemma PadVersions(s: Stream)
    ensures Padded(s) == Tabstream.Padded(s) <==> s != Headless(None)
    ensures Padded(Headless(None)) == Headless(None)
    ensures Tabstream.Padded(Headless(None)) == Headless(Some(StopIteration))
  {
  }

  // ---------------------------------------------------------------- _fields_extractor

  /** `_fields_extractor(header, names)` applied to `row`: the names are
      resolved to their leftmost positions, the first missing one raising
      ValueError; then the values at those positions are taken from the row. */
  function FieldsExtractor(header: Header, names: seq<Label>, row: Row): (r: Result<Row>)
    ensures (exists k :: 0 <= k < |names| && names[k] !in header) ==>
              r.Err? && r.error.UnknownName? && r.error.name in names && r.error.name !in header
    ensures (forall k :: 0 <= k < |names| ==> names[k] in header) ==>
              (r.Ok? <==> Covers(header, names, row)) &&
              (r.Ok? ==> r.value == Lookup(header, names, row))
    ensures (forall k :: 0 <= k < |names| ==> names[k] in header) && r.Err? ==>
              r.error == IndexOutOfRange
  {
    match Resolve(header, names)
    case Err(e) => Err(e)
    case Ok(indices) =>
      ExtractByNames(header, names, row);
      FieldsFor(indices, row)
  }

  // ---------------------------------------------------------------- make_field_adder

  /** The run of the filter made by `make_field_adder`. */
  function FieldAdded(output: Label, derive: seq<Value> -> Value, inputs: seq<Label>, s: Stream): Stream
  {
    if s.Headless? then Quiet(s) else Tabstream.FieldAdded(output, derive, inputs, s)
  }

  /** The filter made by `make_field_adder`: the loop itself is
      `Tabstream.MakeFieldAdder`. */
  method MakeFieldAdder(output: Label, derive: seq<Value> -> Value, inputs: seq<Label>, s: Stream)
    returns (r: Stream)
    ensures r == FieldAdded(output, derive, inputs, s)
  {
    if s.Headless? {
      return Headless(s.failure);
    }
    r := Tabstream.MakeFieldAdder(output, derive, inputs, s);
  }

  /** What `make_field_adder` promises: the output label is appended to the
      header; each row keeps its values in place and gains `derive` of its
      values at the input names; an input name missing from the header raises
      ValueError right after the header. The rest of the run (a row too short
      for the inputs raising IndexError) is that of `Tabstream.FieldAdded`,
      as `FieldAdderVersions` states. */
  lemma FieldAdderContract(output: Label, derive: seq<Value> -> Value, inputs: seq<Label>, s: Stream)
    ensures var r := FieldAdded(output, derive, inputs, s);
      && (s.Headless? ==> r == Headless(s.failure))
      && (s.Tagged? ==>
            && r.Tagged? && r.header == s.header + [output]
            && |r.rows| <= |s.rows|
            && (forall k :: 0 <= k < |r.rows| ==>
                  && Covers(s.header, inputs, s.rows[k])
                  && r.rows[k] == s.rows[k] + [derive(Lookup(s.header, inputs, s.rows[k]))])
            && ((exists k :: 0 <= k < |inputs| && inputs[k] !in s.header) ==>
                  r.rows == [] && r.failure.Some? && r.failure.value.UnknownName?))
  {
    if s.Tagged? {
      var r := FieldAdded(output, derive, inputs, s);
      Tabstream.FieldAdderContract(output, derive, inputs, s);
      forall k | 0 <= k < |r.rows|
        ensures Covers(s.header, inputs, s.rows[k])
        ensures r.rows[k] == s.rows[k] + [derive(Lookup(s.header, inputs, s.rows[k]))]
      {
        assert r.rows[k] == r.rows[k][..|s.rows[k]|] + [r.rows[k][|s.rows[k]|]];
      }
    }
  }

  /** The two versions of `make_field_adder` differ on an empty input only. */
  lemma FieldAdderVersions(output: Label, derive: seq<Value> -> Value, inputs: seq<Label>, s: Stream)
    ensures FieldAdded(output, derive, inputs, s) == Tabstream.FieldAdded(output, derive, inputs, s)
            <==> s != Headless(None)
  {
  }

  // ---------------------------------------------------------------- delete_fields

  /** The run of the filter made by `delete_fields`. */
  function FieldsDeleted(doomed: set<Label>, s: Stream): Stream
  {
    if s.Headless? then Quiet(s) else Tabstream.FieldsDeleted(doomed, s)
  }

  /** The filter made by `delete_fields`: the loop itself is
      `Tabstream.DeleteFields`. */
  method DeleteFields(doomed: set<Label>, s: Stream) returns (r: Stream)
    ensures r == FieldsDeleted(doomed, s)
  {
    if s.Headless? {
      return Headless(s.failure);
    }
    r := Tabstream.DeleteFields(doomed, s);
  }

  /** What `delete_fields` promises: the survivors keep their order, names
      absent from the header change nothing, and header and rows go through
      the same extractor, so every emitted row has the new header's length.
      The rest of the run (a row too short for the extractor raising
      IndexError) is that of `Tabstream.FieldsDeleted`, as
      `DeleteFieldsVersions` states. */
  lemma DeleteFieldsContract(doomed: set<Label>, other: set<Label>, s: Stream)
    requires s.Tagged? ==> forall l :: l in s.header ==> (l in doomed <==> l in other)
    ensures var r := FieldsDeleted(doomed, s);
      && (s.Headless? ==> r == Headless(s.failure))
      && (s.Tagged? ==>
            && r.Tagged? && r.header == Tabstream.Surviving(s.header, doomed)
            && forall k :: 0 <= k < |r.rows| ==>
                 |r.rows[k]| == |r.header| &&
                 r.rows[k] == Lookup(s.header, r.header, s.rows[k]))
    ensures FieldsDeleted(doomed, s) == FieldsDeleted(other, s)
  {
    if s.Tagged? {
      Tabstream.DeleteFieldsContract(doomed, s);
      Tabstream.DeleteFieldsIgnoresAbsent(doomed, other, s);
    }
  }

  /** Deleting the same names twice is deleting them once. */
  lemma DeleteFieldsIdempotent(doomed: set<Label>, s: Stream)
    ensures FieldsDeleted(doomed, FieldsDeleted(doomed, s)) == FieldsDeleted(doomed, s)
  {
    Tabstream.DeleteFieldsIdempotent(doomed, s);
  }

  /** The two versions of `delete_fields` differ on an empty input only. */
  lemma DeleteFieldsVersions(doomed: set<Label>, s: Stream)
    ensures FieldsDeleted(doomed, s) == Tabstream.FieldsDeleted(doomed, s) <==> s != Headless(None)
  {
  }

  // ---------------------------------------------------------------- select

  /** `select` is written exactly as in `tabstream`: it resolves the names
      eagerly, so an unknown name or an empty name list raises before a single
      row is pulled, whatever the rows are. */
  lemma SelectEager(header: Header, names: seq<Label>, rows: seq<Row>, failure: Option<Error>,
                    others: seq<Row>, otherFailure: Option<Error>)
    ensures Tabstream.Select(Tagged(header, rows, failure), names).Err?
            <==> Tabstream.Select(Tagged(header, others, otherFailure), names).Err?
    ensures Tabstream.Select(Tagged(header, rows, failure), names).Err? ==>
              Tabstream.Select(Tagged(header, rows, failure), names)
              == Tabstream.Select(Tagged(header, others, otherFailure), names)
  {
  }
}
