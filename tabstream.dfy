/** The stream filters of the `tabstream` package (tabstream/__init__.py),
    except `rename`, which has a module of its own.

    Each filter that the source writes as a generator loop is a method that
    consumes the rows in a loop, proved equal to a function giving the whole run
    of the generator; the properties the package promises are lemmas about those
    functions. */
module Tabstream {
  import opened Streams
  import opened Extractors

  /** In a header without repeated labels, each label is found where it stands. */
  lemma DistinctFirstIndex(labels: Header, j: nat)
    requires Distinct(labels) && j < |labels|
    ensures FirstIndex(labels, labels[j]) == Some(j)
  {
  }

  // ---------------------------------------------------------------- pad

  /** One step of `pad`: a row of header length passes, a shorter one is
      filled with empty strings up to the header length, a longer one raises. */
  function PadRow(width: nat, row: Row): (r: Result<Row>)
    ensures r.Ok? <==> |row| <= width
    ensures r.Ok? ==> |r.value| == width && r.value[..|row|] == row
    ensures r.Ok? ==> forall k :: |row| <= k < width ==> r.value[k] == Empty
    ensures |row| == width ==> r == Ok(row)
    ensures r.Err? ==> r.error == RowTooLong(row)
  {
    if |row| == width then Ok(row)
    else if |row| < width then Ok(row + Fill(width - |row|))
    else Err(RowTooLong(row))
  }

  function PadStep(width: nat): Row -> Result<Row>
  {
    row => PadRow(width, row)
  }

  /** The run of `pad`: the header first, unchanged, then the padded rows up to
      the first row longer than the header. */
  function Padded(s: Stream): Stream
  {
    match s
    case Headless(failure) => Headless(Some(HeaderlessFailure(failure)))
    case Tagged(header, rows, failure) =>
      var t := Drain(PadStep(|header|), rows, failure);
      Tagged(header, t.items, t.failure)
  }

  /** `pad`, the generator loop. */
  method Pad(s: Stream) returns (r: Stream)
    ensures r == Padded(s)
  {
    if s.Headless? {
      return Headless(Some(HeaderlessFailure(s.failure)));
    }
    var header, rows := s.header, s.rows;
    var width := |header|;
    var out: seq<Row> := [];
    for i := 0 to |rows|
      invariant |out| == i
      invariant forall k :: 0 <= k < i ==> PadRow(width, rows[k]) == Ok(out[k])
    {
      var row := rows[i];
      if |row| == width {
        out := out + [row];
      } else if |row| < width {
        out := out + [row + Fill(width - |row|)];
      } else {
        DrainUnique(PadStep(width), rows, s.failure, out, Some(RowTooLong(row)));
        return Tagged(header, out, Some(RowTooLong(row)));
      }
    }
    DrainUnique(PadStep(width), rows, s.failure, out, s.failure);
    r := Tagged(header, out, s.failure);
  }

  /** What `pad` promises: the header is emitted first and unchanged; each row
      up to the first long one comes out as the row followed by exactly
      header-length minus row-length empty strings, so every emitted row has
      the header's length; the first row longer than the header raises
      ValueError and nothing follows it. */
  lemma PadContract(s: Stream)
    requires s.Tagged?
    ensures Padded(s).Tagged? && Padded(s).header == s.header
    ensures |Padded(s).rows| <= |s.rows|
    ensures forall k :: 0 <= k < |Padded(s).rows| ==>
              |s.rows[k]| <= |s.header| && |Padded(s).rows[k]| == |s.header| &&
              Padded(s).rows[k] == s.rows[k] + Fill(|s.header| - |s.rows[k]|)
    ensures |Padded(s).rows| < |s.rows| ==>
              |s.rows[|Padded(s).rows|]| > |s.header| &&
              Padded(s).failure == Some(RowTooLong(s.rows[|Padded(s).rows|]))
    ensures |Padded(s).rows| == |s.rows| ==> Padded(s).failure == s.failure
  {
    var r := Padded(s);
    forall k | 0 <= k < |r.rows|
      ensures r.rows[k] == s.rows[k] + Fill(|s.header| - |s.rows[k]|)
    {
      assert PadRow(|s.header|, s.rows[k]) == Ok(r.rows[k]);
    }
  }

  /** On a stream whose rows all have the header's length, `pad` changes nothing. */
  lemma PadIdentity(s: Stream)
    requires s.Tagged? && forall k :: 0 <= k < |s.rows| ==> |s.rows[k]| == |s.header|
    ensures Padded(s) == s
  {
    DrainUnique(PadStep(|s.header|), s.rows, s.failure, s.rows, s.failure);
  }

  /** Padding twice is padding once. */
  lemma PadIdempotent(s: Stream)
    ensures Padded(Padded(s)) == Padded(s)
  {
    if s.Tagged? {
      PadContract(s);
      PadIdentity(Padded(s));
    }
  }

  // ---------------------------------------------------------------- select

  /** What `operator.itemgetter(*indices)` yields for a row: a bare value for a
      single index, a tuple otherwise. */
  datatype Picked = Single(value: Value) | Many(values: seq<Value>)

  function PickStep(indices: seq<nat>): Row -> Result<Picked>
  {
    row => match GetItems(indices, row)
      case Err(e) => Err(e)
      case Ok(vs) => Ok(if |indices| == 1 then Single(vs[0]) else Many(vs))
  }

  /** `select`: the header is consumed, not emitted; the names are resolved and
      the itemgetter built eagerly, before any row is pulled; then every row
      yields the picked values. */
  function Select(s: Stream, names: seq<Label>): (r: Result<Tail<Picked>>)
    ensures s.Headless? ==> r == Err(HeaderlessFailure(s.failure))
    ensures s.Tagged? ==>
              (r.Ok? <==> names != [] && forall k :: 0 <= k < |names| ==> names[k] in s.header)
    ensures s.Tagged? && names == [] ==> r == Err(NoIndices)
    ensures s.Tagged? && names != [] && r.Err? ==>
              r.error.UnknownName? && r.error.name in names && r.error.name !in s.header
  {
    match s
    case Headless(failure) => Err(HeaderlessFailure(failure))
    case Tagged(header, rows, failure) =>
      match Resolve(header, names)
      case Err(e) => Err(e)
      case Ok(indices) =>
        if indices == [] then Err(NoIndices)
        else Ok(Drain(PickStep(indices), rows, failure))
  }

  lemma GetItemsAgrees<T>(indices: seq<nat>, row: seq<T>)
    ensures GetItems(indices, row) == FieldsFor(indices, row)
  {
    if GetItems(indices, row).Ok? {
      assert GetItems(indices, row).value == FieldsFor(indices, row).value;
    }
  }

  /** The rows `select` yields: for each row, in request order and with
      repeats, the value at the leftmost position of each name, bare when a
      single name was requested; a row too short for them raises IndexError
      and ends the run. */
  lemma SelectRows(s: Stream, names: seq<Label>)
    requires s.Tagged? && Select(s, names).Ok?
    ensures var t := Select(s, names).value;
      && |t.items| <= |s.rows|
      && (forall k :: 0 <= k < |t.items| ==>
            && Covers(s.header, names, s.rows[k])
            && t.items[k] == if |names| == 1 then Single(Lookup(s.header, names, s.rows[k])[0])
                             else Many(Lookup(s.header, names, s.rows[k])))
      && (|t.items| < |s.rows| ==>
            !Covers(s.header, names, s.rows[|t.items|]) && t.failure == Some(IndexOutOfRange))
      && (|t.items| == |s.rows| ==> t.failure == s.failure)
  {
    var t := Select(s, names).value;
    var indices := Resolve(s.header, names).value;
    forall k | 0 <= k < |s.rows|
      ensures GetItems(indices, s.rows[k]) == FieldsFor(indices, s.rows[k])
      ensures FieldsFor(indices, s.rows[k]).Ok? <==> Covers(s.header, names, s.rows[k])
      ensures Covers(s.header, names, s.rows[k]) ==>
                FieldsFor(indices, s.rows[k]) == Ok(Lookup(s.header, names, s.rows[k]))
    {
      GetItemsAgrees(indices, s.rows[k]);
      ExtractByNames(s.header, names, s.rows[k]);
    }
    forall k | 0 <= k < |t.items|
      ensures Covers(s.header, names, s.rows[k])
      ensures t.items[k] == if |names| == 1 then Single(Lookup(s.header, names, s.rows[k])[0])
                            else Many(Lookup(s.header, names, s.rows[k]))
    {
      assert PickStep(indices)(s.rows[k]) == Ok(t.items[k]);
    }
    if |t.items| < |s.rows| {
      assert PickStep(indices)(s.rows[|t.items|]).Err?;
    }
  }

  // ---------------------------------------------------------------- make_field_adder

  function AddStep(indices: seq<nat>, derive: seq<Value> -> Value): Row -> Result<Row>
  {
    row => match FieldsFor(indices, row)
      case Err(e) => Err(e)
      case Ok(args) => Ok(row + [derive(args)])
  }

  /** The run of the filter made by `make_field_adder(output, derive, inputs)`:
      the header extended by the output label is emitted first; only then are
      the input names resolved; every row is extended by `derive` applied to its
      input values. */
  function FieldAdded(output: Label, derive: seq<Value> -> Value, inputs: seq<Label>, s: Stream): Stream
  {
    match s
    case Headless(failure) => Headless(Some(HeaderlessFailure(failure)))
    case Tagged(header, rows, failure) =>
      match Resolve(header, inputs)
      case Err(e) => Tagged(header + [output], [], Some(e))
      case Ok(indices) =>
        var t := Drain(AddStep(indices, derive), rows, failure);
        Tagged(header + [output], t.items, t.failure)
  }

  /** The filter made by `make_field_adder`, the generator loop. */
  method MakeFieldAdder(output: Label, derive: seq<Value> -> Value, inputs: seq<Label>, s: Stream)
    returns (r: Stream)
    ensures r == FieldAdded(output, derive, inputs, s)
  {
    if s.Headless? {
      return Headless(Some(HeaderlessFailure(s.failure)));
    }
    var header, rows := s.header, s.rows;
    var newHeader := header + [output];
    var resolved := Resolve(header, inputs);
    if resolved.Err? {
      return Tagged(newHeader, [], Some(resolved.error));
    }
    var indices := resolved.value;
    var out: seq<Row> := [];
    for i := 0 to |rows|
      invariant |out| == i
      invariant forall k :: 0 <= k < i ==> AddStep(indices, derive)(rows[k]) == Ok(out[k])
    {
      var fields := FieldsFor(indices, rows[i]);
      if fields.Err? {
        DrainUnique(AddStep(indices, derive), rows, s.failure, out, Some(fields.error));
        return Tagged(newHeader, out, Some(fields.error));
      }
      out := out + [rows[i] + [derive(fields.value)]];
    }
    DrainUnique(AddStep(indices, derive), rows, s.failure, out, s.failure);
    r := Tagged(newHeader, out, s.failure);
  }

  /** What `make_field_adder` promises: the header gains the output label at
      the end; an input name missing from the header raises ValueError right
      after the header; otherwise each row keeps its values and gains one more,
      `derive` of the values at the input names; a row too short for the
      inputs raises IndexError and ends the run. */
  lemma FieldAdderContract(output: Label, derive: seq<Value> -> Value, inputs: seq<Label>, s: Stream)
    requires s.Tagged?
    ensures var r := FieldAdded(output, derive, inputs, s);
      && r.Tagged? && r.header == s.header + [output]
      && ((exists k :: 0 <= k < |inputs| && inputs[k] !in s.header) ==>
            r.rows == [] && r.failure.Some? && r.failure.value.UnknownName?
            && r.failure.value.name in inputs && r.failure.value.name !in s.header)
      && ((forall k :: 0 <= k < |inputs| ==> inputs[k] in s.header) ==>
            && |r.rows| <= |s.rows|
            && (forall k :: 0 <= k < |r.rows| ==>
                  && Covers(s.header, inputs, s.rows[k])
                  && |r.rows[k]| == |s.rows[k]| + 1
                  && r.rows[k][..|s.rows[k]|] == s.rows[k]
                  && r.rows[k][|s.rows[k]|] == derive(Lookup(s.header, inputs, s.rows[k])))
            && (|r.rows| < |s.rows| ==>
                  !Covers(s.header, inputs, s.rows[|r.rows|]) && r.failure == Some(IndexOutOfRange))
            && (|r.rows| == |s.rows| ==> r.failure == s.failure))
  {
    var r := FieldAdded(output, derive, inputs, s);
    if forall k :: 0 <= k < |inputs| ==> inputs[k] in s.header {
      var indices := Resolve(s.header, inputs).value;
      forall k | 0 <= k < |s.rows| {
        ExtractByNames(s.header, inputs, s.rows[k]);
      }
      forall k | 0 <= k < |r.rows|
        ensures Covers(s.header, inputs, s.rows[k])
        ensures r.rows[k] == s.rows[k] + [derive(Lookup(s.header, inputs, s.rows[k]))]
      {
        assert AddStep(indices, derive)(s.rows[k]) == Ok(r.rows[k]);
      }
      if |r.rows| < |s.rows| {
        assert AddStep(indices, derive)(s.rows[|r.rows|]).Err?;
      }
    }
  }

  /** The positions of the first labels of a header behind which a label was
      appended that it does not hold: the labels themselves, in order. */
  lemma AppendedIndices(header: Header, output: Label)
    requires Distinct(header) && output !in header
    ensures Resolve(header + [output], header) == Ok(seq(|header|, j => j))
  {
    var wider := header + [output];
    var indices: seq<nat> := seq(|header|, j => j);
    forall j | 0 <= j < |header| ensures FirstIndex(wider, header[j]) == Some(indices[j]) {
      assert Distinct(wider) && wider[j] == header[j];
      DistinctFirstIndex(wider, j);
    }
    ResolveIs(wider, header, indices);
  }

  // ---------------------------------------------------------------- delete_fields

  /** `tuple(field for field in header if field not in doomed)`. */
  function Surviving(header: Header, doomed: set<Label>): (r: Header)
    ensures |r| <= |header|
    ensures forall l :: l in r <==> l in header && l !in doomed
  {
    if header == [] then []
    else (if header[0] in doomed then [] else [header[0]]) + Surviving(header[1..], doomed)
  }

  /** The survivors keep their relative order: deletion distributes over
      concatenation of headers. */
  lemma {:induction false} SurvivingAppend(a: Header, b: Header, doomed: set<Label>)
    ensures Surviving(a + b, doomed) == Surviving(a, doomed) + Surviving(b, doomed)
  {
    if a != [] {
      assert (a + b)[1..] == a[1..] + b;
      SurvivingAppend(a[1..], b, doomed);
    } else {
      assert a + b == b;
    }
  }

  /** Only the doomed names that occur in the header matter: names absent
      from it are ignored. */
  lemma {:induction false} SurvivingIgnoresAbsent(header: Header, doomed: set<Label>, other: set<Label>)
    requires forall l :: l in header ==> (l in doomed <==> l in other)
    ensures Surviving(header, doomed) == Surviving(header, other)
  {
    if header != [] {
      assert header[0] in header;
      assert forall l :: l in header[1..] ==> l in header;
      SurvivingIgnoresAbsent(header[1..], doomed, other);
    }
  }

  /** Deleting nothing that the header holds leaves the header as it is. */
  lemma {:induction false} SurvivingNothing(header: Header, doomed: set<Label>)
    requires forall l :: l in header ==> l !in doomed
    ensures Surviving(header, doomed) == header
  {
    if header != [] {
      assert header[0] in header;
      assert forall l :: l in header[1..] ==> l in header;
      SurvivingNothing(header[1..], doomed);
    }
  }

  function FieldsStep(indices: seq<nat>): Row -> Result<Row>
  {
    row => FieldsFor(indices, row)
  }

  /** The run of `delete_fields(*doomed)`: the surviving labels are resolved
      against the header and that one extractor is applied to the header and
      then to every row. */
  function FieldsDeleted(doomed: set<Label>, s: Stream): Stream
  {
    match s
    case Headless(failure) => Headless(Some(HeaderlessFailure(failure)))
    case Tagged(header, rows, failure) =>
      var keep := Surviving(header, doomed);
      var indices := Resolve(header, keep).value;
      ExtractHeader(header, keep);
      var t := Drain(FieldsStep(indices), rows, failure);
      Tagged(FieldsFor(indices, header).value, t.items, t.failure)
  }

  /** The filter made by `delete_fields`, the generator loop. */
  method DeleteFields(doomed: set<Label>, s: Stream) returns (r: Stream)
    ensures r == FieldsDeleted(doomed, s)
  {
    if s.Headless? {
      return Headless(Some(HeaderlessFailure(s.failure)));
    }
    var header, rows := s.header, s.rows;
    var keep := Surviving(header, doomed);
    var indices := Resolve(header, keep).value;
    ExtractHeader(header, keep);
    var newHeader := FieldsFor(indices, header).value;
    var out: seq<Row> := [];
    for i := 0 to |rows|
      invariant |out| == i
      invariant forall k :: 0 <= k < i ==> FieldsFor(indices, rows[k]) == Ok(out[k])
    {
      var fields := FieldsFor(indices, rows[i]);
      if fields.Err? {
        DrainUnique(FieldsStep(indices), rows, s.failure, out, Some(fields.error));
        return Tagged(newHeader, out, Some(fields.error));
      }
      out := out + [fields.value];
    }
    DrainUnique(FieldsStep(indices), rows, s.failure, out, s.failure);
    r := Tagged(newHeader, out, s.failure);
  }

  /** What `delete_fields` promises: the header becomes the surviving labels
      in their original order; each row becomes the values at the leftmost
      positions of those labels, so header and rows keep equal lengths; a row
      too short for the extractor raises IndexError and ends the run. */
  lemma DeleteFieldsContract(doomed: set<Label>, s: Stream)
    requires s.Tagged?
    ensures var r := FieldsDeleted(doomed, s);
      var keep := Surviving(s.header, doomed);
      && r.Tagged? && r.header == keep
      && |r.rows| <= |s.rows|
      && (forall k :: 0 <= k < |r.rows| ==>
            Covers(s.header, keep, s.rows[k]) && r.rows[k] == Lookup(s.header, keep, s.rows[k])
            && |r.rows[k]| == |r.header|)
      && (|r.rows| < |s.rows| ==>
            !Covers(s.header, keep, s.rows[|r.rows|]) && r.failure == Some(IndexOutOfRange))
      && (|r.rows| == |s.rows| ==> r.failure == s.failure)
  {
    var keep := Surviving(s.header, doomed);
    ExtractHeader(s.header, keep);
    DrainByNames(s.header, keep, s.rows, s.failure);
  }

  /** The row loop of an extractor built from names: each row up to the first
      that is too short becomes the values at the names' leftmost positions. */
  lemma DrainByNames(header: Header, names: seq<Label>, rows: seq<Row>, failure: Option<Error>)
    requires forall k :: 0 <= k < |names| ==> names[k] in header
    ensures var t := Drain(FieldsStep(Resolve(header, names).value), rows, failure);
      && |t.items| <= |rows|
      && (forall k :: 0 <= k < |t.items| ==>
            Covers(header, names, rows[k]) && t.items[k] == Lookup(header, names, rows[k]))
      && (|t.items| < |rows| ==>
            !Covers(header, names, rows[|t.items|]) && t.failure == Some(IndexOutOfRange))
      && (|t.items| == |rows| ==> t.failure == failure)
  {
    var indices := Resolve(header, names).value;
    var t := Drain(FieldsStep(indices), rows, failure);
    forall k | 0 <= k < |t.items|
      ensures Covers(header, names, rows[k]) && t.items[k] == Lookup(header, names, rows[k])
    {
      ExtractByNames(header, names, rows[k]);
      assert FieldsStep(indices)(rows[k]) == Ok(t.items[k]);
    }
    if |t.items| < |rows| {
      ExtractByNames(header, names, rows[|t.items|]);
      assert FieldsStep(indices)(rows[|t.items|]).Err?;
    }
  }

  /** The run of `delete_fields` on a stream whose rows all fit the extractor. */
  lemma DeletedBy(doomed: set<Label>, header: Header, rows: seq<Row>, failure: Option<Error>,
                  keep: Header, indices: seq<nat>, out: seq<Row>)
    requires Surviving(header, doomed) == keep && Resolve(header, keep) == Ok(indices)
    requires |out| == |rows| && forall k :: 0 <= k < |rows| ==> FieldsFor(indices, rows[k]) == Ok(out[k])
    ensures FieldsDeleted(doomed, Tagged(header, rows, failure)) == Tagged(keep, out, failure)
  {
    forall k | 0 <= k < |rows| ensures FieldsStep(indices)(rows[k]) == Ok(out[k]) {
    }
    DrainUnique(FieldsStep(indices), rows, failure, out, failure);
    ExtractHeader(header, keep);
  }

  /** Names absent from the header do not change what `delete_fields` does. */
  lemma DeleteFieldsIgnoresAbsent(doomed: set<Label>, other: set<Label>, s: Stream)
    requires s.Tagged? && forall l :: l in s.header ==> (l in doomed <==> l in other)
    ensures FieldsDeleted(doomed, s) == FieldsDeleted(other, s)
  {
    SurvivingIgnoresAbsent(s.header, doomed, other);
  }

  /** A row emitted by `delete_fields` is already in the form a second pass
      produces: the second pass resolves the survivors against themselves. */
  lemma LookupStable(header: Header, keep: seq<Label>, row: Row)
    requires Covers(header, keep, row)
    ensures forall j :: 0 <= j < |keep| ==> keep[j] in keep
    ensures FieldsFor(Resolve(keep, keep).value, Lookup(header, keep, row)) == Ok(Lookup(header, keep, row))
  {
    var v := Lookup(header, keep, row);
    var again := Resolve(keep, keep).value;
    forall j | 0 <= j < |keep| ensures again[j] < |v| && v[again[j]] == v[j] {
      assert FirstIndex(keep, keep[j]) == Some(again[j]);
    }
    assert FieldsFor(again, v).value == v;
  }

  /** Deleting the same names twice is deleting them once. */
  lemma DeleteFieldsIdempotent(doomed: set<Label>, s: Stream)
    ensures FieldsDeleted(doomed, FieldsDeleted(doomed, s)) == FieldsDeleted(doomed, s)
  {
    if s.Tagged? {
      var r := FieldsDeleted(doomed, s);
      var keep := Surviving(s.header, doomed);
      DeleteFieldsContract(doomed, s);
      SurvivingNothing(keep, doomed);
      ExtractHeader(keep, keep);
      var again := Resolve(keep, keep).value;
      forall k | 0 <= k < |r.rows|
        ensures FieldsStep(again)(r.rows[k]) == Ok(r.rows[k])
      {
        LookupStable(s.header, keep, s.rows[k]);
      }
      DrainUnique(FieldsStep(again), r.rows, r.failure, r.rows, r.failure);
    }
  }

  /** Resolving the labels `(a, b, a)` against themselves, with nothing deleted. */
  lemma RepeatedLabelIndices(header: Header)
    requires header == ["a", "b", "a"]
    ensures Surviving(header, {"z"}) == header
    ensures Resolve(header, header) == Ok([0, 1, 0])
  {
    SurvivingNothing(header, {"z"});
    assert header[1..] == ["b", "a"];
    assert FirstIndex(header, "a") == Some(0);
    assert FirstIndex(header, "b") == Some(1);
    ResolveIs(header, header, [0, 1, 0]);
  }

  /** Labels are resolved to their leftmost position, so a repeated label
      that survives takes the values of its first column. */
  lemma DeleteFieldsRepeatedLabel()
    ensures FieldsDeleted({"z"}, Tagged(["a", "b", "a"], [[Number(1), Number(2), Number(3)]], None))
         == Tagged(["a", "b", "a"], [[Number(1), Number(2), Number(1)]], None)
  {
    var header: Header := ["a", "b", "a"];
    RepeatedLabelIndices(header);
    RepeatedLabelRow();
    DeletedBy({"z"}, header, [[Number(1), Number(2), Number(3)]], None, header, [0, 1, 0],
              [[Number(1), Number(2), Number(1)]]);
  }

  lemma RepeatedLabelRow()
    ensures FieldsFor([0, 1, 0], [Number(1), Number(2), Number(3)]) == Ok([Number(1), Number(2), Number(1)])
  {
    FieldsForIs([0, 1, 0], [Number(1), Number(2), Number(3)], [Number(1), Number(2), Number(1)]);
  }

  /** Deleting the added column again gives back the stream, provided its
      header has no repeated label, does not already hold the output label,
      and every row has the header's length. */
  lemma AddedThenDeleted(output: Label, derive: seq<Value> -> Value, inputs: seq<Label>, s: Stream)
    requires s.Tagged? && Distinct(s.header) && output !in s.header
    requires forall k :: 0 <= k < |inputs| ==> inputs[k] in s.header
    requires forall k :: 0 <= k < |s.rows| ==> |s.rows[k]| == |s.header|
    ensures FieldsDeleted({output}, FieldAdded(output, derive, inputs, s)) == s
  {
    var h := s.header;
    var a := FieldAdded(output, derive, inputs, s);
    AddedRowsExtend(output, derive, inputs, s);
    SurvivingAppended(h, output);
    AppendedIndices(h, output);
    var indices := seq(|h|, j => j);
    AddedRowsDropped(h, s.rows, a.rows, indices);
    DeletedBy({output}, h + [output], a.rows, s.failure, h, indices, s.rows);
  }

  /** When every row has the header's length, the field adder extends every
      row by one value and ends as its input does. */
  lemma AddedRowsExtend(output: Label, derive: seq<Value> -> Value, inputs: seq<Label>, s: Stream)
    requires s.Tagged?
    requires forall k :: 0 <= k < |inputs| ==> inputs[k] in s.header
    requires forall k :: 0 <= k < |s.rows| ==> |s.rows[k]| == |s.header|
    ensures var a := FieldAdded(output, derive, inputs, s);
      && a.Tagged? && a.header == s.header + [output]
      && |a.rows| == |s.rows| && a.failure == s.failure
      && forall k :: 0 <= k < |s.rows| ==> |a.rows[k]| == |s.rows[k]| + 1 && a.rows[k][..|s.rows[k]|] == s.rows[k]
  {
    var a := FieldAdded(output, derive, inputs, s);
    FieldAdderContract(output, derive, inputs, s);
    AddedRowsWhole(s.header, inputs, s.rows, a.rows);
  }

  /** The positions of the header pick each extended row back out. */
  lemma AddedRowsDropped(header: Header, rows: seq<Row>, added: seq<Row>, indices: seq<nat>)
    requires |added| == |rows| && indices == seq(|header|, j => j)
    requires forall k :: 0 <= k < |rows| ==>
               |rows[k]| == |header| && |added[k]| == |rows[k]| + 1 && added[k][..|rows[k]|] == rows[k]
    ensures forall k :: 0 <= k < |rows| ==> FieldsFor(indices, added[k]) == Ok(rows[k])
  {
    forall k | 0 <= k < |rows| ensures FieldsFor(indices, added[k]) == Ok(rows[k]) {
      forall j | 0 <= j < |indices| ensures indices[j] < |added[k]| && rows[k][j] == added[k][indices[j]] {
        assert added[k][..|rows[k]|][j] == added[k][j];
      }
      FieldsForIs(indices, added[k], rows[k]);
    }
  }

  /** Deleting a label appended to a header that does not hold it gives back the header. */
  lemma SurvivingAppended(header: Header, output: Label)
    requires output !in header
    ensures Surviving(header + [output], {output}) == header
  {
    SurvivingAppend(header, [output], {output});
    SurvivingNothing(header, {output});
    assert Surviving([output], {output}) == [];
  }

  /** Rows of the header's length all fit an extractor of names from the header. */
  lemma AddedRowsWhole(header: Header, inputs: seq<Label>, rows: seq<Row>, added: seq<Row>)
    requires forall k :: 0 <= k < |inputs| ==> inputs[k] in header
    requires forall k :: 0 <= k < |rows| ==> |rows[k]| == |header|
    requires |added| <= |rows|
    requires |added| < |rows| ==> !Covers(header, inputs, rows[|added|])
    ensures |added| == |rows|
  {
    if |added| < |rows| {
      forall k | 0 <= k < |inputs| ensures FirstIndex(header, inputs[k]).value < |rows[|added|]| {
      }
    }
  }

  // ---------------------------------------------------------------- add_row_number

  /** The run of `add_row_number(field)`: the label goes in front of the header
      and each row is preceded by its 1-based number. */
  function Numbered(field: Label, s: Stream): Stream
  {
    match s
    case Headless(failure) => Headless(Some(HeaderlessFailure(failure)))
    case Tagged(header, rows, failure) =>
      Tagged([field] + header, seq(|rows|, k requires 0 <= k < |rows| => [Number(k + 1)] + rows[k]), failure)
  }

  /** The filter made by `add_row_number`, the `enumerate` loop. */
  method AddRowNumber(field: Label, s: Stream) returns (r: Stream)
    ensures r == Numbered(field, s)
  {
    if s.Headless? {
      return Headless(Some(HeaderlessFailure(s.failure)));
    }
    var out: seq<Row> := [];
    for index := 0 to |s.rows|
      invariant |out| == index
      invariant forall k :: 0 <= k < index ==> out[k] == [Number(k + 1)] + s.rows[k]
    {
      out := out + [[Number(index + 1)] + s.rows[index]];
    }
    r := Tagged([field] + s.header, out, s.failure);
  }

  lemma FirstIndexBehind(x: Label, labels: Header, y: Label)
    requires y != x && y in labels
    ensures FirstIndex([x] + labels, y) == Some(FirstIndex(labels, y).value + 1)
  {
    var wider := [x] + labels;
    assert wider[0] == x && wider[1..] == labels;
  }

  /** In front of a header without repeats, a new label shifts every
      resolved position by one. */
  lemma ShiftedIndices(field: Label, header: Header)
    requires Distinct(header) && field !in header
    ensures Resolve([field] + header, header) == Ok(seq(|header|, j => j + 1))
  {
    var indices: seq<nat> := seq(|header|, j => j + 1);
    forall j | 0 <= j < |header| ensures FirstIndex([field] + header, header[j]) == Some(indices[j]) {
      DistinctFirstIndex(header, j);
      FirstIndexBehind(field, header, header[j]);
    }
    ResolveIs([field] + header, header, indices);
  }

  /** The positions one to the end pick a row back out from behind its number. */
  lemma DropFirst(v: Value, row: Row)
    ensures FieldsFor(seq(|row|, j => j + 1), [v] + row) == Ok(row)
  {
    var indices := seq(|row|, j => j + 1);
    assert FieldsFor(indices, [v] + row).value == row;
  }

  /** Deleting the number column again gives back the stream, provided its
      header has no repeated label, does not already hold the new label, and
      every row has the header's length. */
  lemma NumberedThenDeleted(field: Label, s: Stream)
    requires s.Tagged? && Distinct(s.header) && field !in s.header
    requires forall k :: 0 <= k < |s.rows| ==> |s.rows[k]| == |s.header|
    ensures FieldsDeleted({field}, Numbered(field, s)) == s
  {
    var n := Numbered(field, s);
    var header := [field] + s.header;
    SurvivingBehind(field, s.header);
    ShiftedIndices(field, s.header);
    var indices := seq(|s.header|, j => j + 1);
    NumberedRowsDropped(s.header, s.rows, n.rows, indices);
    DeletedBy({field}, header, n.rows, s.failure, s.header, indices, s.rows);
  }

  /** Deleting a label put in front of a header that does not hold it gives back the header. */
  lemma SurvivingBehind(field: Label, header: Header)
    requires field !in header
    ensures Surviving([field] + header, {field}) == header
  {
    SurvivingNothing(header, {field});
    assert ([field] + header)[1..] == header;
  }

  /** Each numbered row, picked at the positions one to the end, is the row it numbers. */
  lemma NumberedRowsDropped(header: Header, rows: seq<Row>, numbered: seq<Row>, indices: seq<nat>)
    requires forall k :: 0 <= k < |rows| ==> |rows[k]| == |header|
    requires numbered == seq(|rows|, k requires 0 <= k < |rows| => [Number(k + 1)] + rows[k])
    requires indices == seq(|header|, j => j + 1)
    ensures |numbered| == |rows|
    ensures forall k :: 0 <= k < |rows| ==> FieldsFor(indices, numbered[k]) == Ok(rows[k])
  {
    forall k | 0 <= k < |rows| ensures FieldsFor(indices, numbered[k]) == Ok(rows[k]) {
      assert numbered[k] == [Number(k + 1)] + rows[k];
      DropFirst(Number(k + 1), rows[k]);
    }
  }

  // ---------------------------------------------------------------- pipe

  /** The filters applied one after the other, first to last. */
  function Composed<S>(filters: seq<S -> S>, s: S): S
    decreases |filters|
  {
    if filters == [] then s else Composed(filters[1..], filters[0](s))
  }

  /** The filter made by `pipe(*filters)`, reassigning the stream in a loop. */
  method Pipe<S>(filters: seq<S -> S>, s: S) returns (r: S)
    ensures r == Composed(filters, s)
  {
    r := s;
    for i := 0 to |filters|
      invariant Composed(filters, s) == Composed(filters[i..], r)
    {
      assert filters[i..][1..] == filters[i + 1..];
      r := filters[i](r);
    }
  }

  /** Piping two filters applies the first, then the second. */
  lemma PipeOrder<S>(first: S -> S, second: S -> S, s: S)
    ensures Composed([first, second], s) == second(first(s))
  {
    assert [first, second][1..] == [second];
    assert [second][1..] == [];
    calc {
      Composed([first, second], s);
      Composed([second], first(s));
      Composed([], second(first(s)));
    }
  }

  /** A pipe of pipes is the pipe of all their filters. */
  lemma {:induction false} ComposedAppend<S>(a: seq<S -> S>, b: seq<S -> S>, s: S)
    ensures Composed(a + b, s) == Composed(b, Composed(a, s))
  {
    if a == [] {
      assert a + b == b;
    } else {
      assert (a + b)[1..] == a[1..] + b;
      ComposedAppend(a[1..], b, a[0](s));
    }
  }
}
