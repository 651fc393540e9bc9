/** The column extractor factory: column names are resolved once, against the
    header, to positions; an extractor is the list of those positions and is
    applied to every later row. */
module Extractors {
  import opened Streams

  /** What `operator.itemgetter(*indices)` returns for a row when at least two
      indices are given: the tuple of the values at those positions, or an
      IndexError when the row is too short for one of them. */
  function GetItems<T>(indices: seq<nat>, row: seq<T>): (r: Result<seq<T>>)
    ensures r.Ok? <==> forall k :: 0 <= k < |indices| ==> indices[k] < |row|
    ensures r.Ok? ==> |r.value| == |indices|
    ensures r.Ok? ==> forall k :: 0 <= k < |indices| ==> r.value[k] == row[indices[k]]
    ensures r.Err? ==> r.error == IndexOutOfRange
  {
    if indices == [] then Ok([])
    else if indices[0] >= |row| then Err(IndexOutOfRange)
    else match GetItems(indices[1..], row)
      case Err(e) => Err(e)
      case Ok(rest) => Ok([row[indices[0]]] + rest)
  }

  /** The extractor built by `_fields_extractor_for(indices)`, applied to `row`.
      It special-cases no index (an empty tuple, whatever the row) and one
      index (a 1-tuple rather than itemgetter's bare value); with every count
      it yields a tuple with one value per index. */
  function FieldsFor<T>(indices: seq<nat>, row: seq<T>): (r: Result<seq<T>>)
    ensures r.Ok? <==> forall k :: 0 <= k < |indices| ==> indices[k] < |row|
    ensures r.Ok? ==> |r.value| == |indices|
    ensures r.Ok? ==> forall k :: 0 <= k < |indices| ==> r.value[k] == row[indices[k]]
    ensures r.Err? ==> r.error == IndexOutOfRange
  {
    if |indices| == 0 then Ok([])
    else if |indices| == 1 then
      if indices[0] < |row| then Ok([row[indices[0]]]) else Err(IndexOutOfRange)
    else GetItems(indices, row)
  }

  /** `[header.index(name) for name in names]`: every name resolved to its
      leftmost position; the first name missing from the header raises. */
  function Resolve(header: Header, names: seq<Label>): (r: Result<seq<nat>>)
    ensures r.Ok? <==> forall k :: 0 <= k < |names| ==> names[k] in header
    ensures r.Ok? ==> |r.value| == |names|
    ensures r.Ok? ==> forall k :: 0 <= k < |names| ==> FirstIndex(header, names[k]) == Some(r.value[k])
    ensures r.Err? ==> exists k :: 0 <= k < |names| && names[k] !in header && r.error == UnknownName(names[k])
                                   && forall j :: 0 <= j < k ==> names[j] in header
  {
    if names == [] then Ok([])
    else match FirstIndex(header, names[0])
      case None => Err(UnknownName(names[0]))
      case Some(i) =>
        match Resolve(header, names[1..])
        case Err(e) =>
          assert forall j :: 1 <= j < |names| ==> names[j] == names[1..][j - 1];
          Err(e)
        case Ok(rest) => Ok([i] + rest)
  }

  /** Resolution is determined by where each name is first found. */
  lemma ResolveIs(header: Header, names: seq<Label>, indices: seq<nat>)
    requires |indices| == |names|
    requires forall k :: 0 <= k < |names| ==> FirstIndex(header, names[k]) == Some(indices[k])
    ensures Resolve(header, names) == Ok(indices)
  {
    forall k | 0 <= k < |names| ensures names[k] in header {
      assert FirstIndex(header, names[k]).Some?;
    }
    var r := Resolve(header, names);
    forall k | 0 <= k < |names| ensures r.value[k] == indices[k] {
      assert FirstIndex(header, names[k]) == Some(r.value[k]);
    }
    assert r.value == indices;
  }

  /** Every name resolves and its leftmost position lies inside `row`. */
  ghost predicate Covers<T>(header: Header, names: seq<Label>, row: seq<T>)
  {
    forall k :: 0 <= k < |names| ==>
      names[k] in header && FirstIndex(header, names[k]).value < |row|
  }

  /** Reference definition of a projection by names: the value at the leftmost
      position of each name, in the order of the names. */
  ghost function Lookup<T>(header: Header, names: seq<Label>, row: seq<T>): (r: seq<T>)
    requires Covers(header, names, row)
    ensures |r| == |names|
  {
    seq(|names|, k requires 0 <= k < |names| => row[FirstIndex(header, names[k]).value])
  }

  /** `_fields_extractor_by_names(header, names)` applied to a row: the
      values at the leftmost positions of the names, in request order with
      repeats, when the row is long enough. */
  lemma ExtractByNames<T>(header: Header, names: seq<Label>, row: seq<T>)
    requires forall k :: 0 <= k < |names| ==> names[k] in header
    ensures Resolve(header, names).Ok?
    ensures FieldsFor(Resolve(header, names).value, row).Ok? <==> Covers(header, names, row)
    ensures Covers(header, names, row) ==>
              FieldsFor(Resolve(header, names).value, row) == Ok(Lookup(header, names, row))
  {
    var indices := Resolve(header, names).value;
    if Covers(header, names, row) {
      forall k | 0 <= k < |indices| ensures indices[k] < |row| {
        assert FirstIndex(header, names[k]) == Some(indices[k]);
      }
      var vs := FieldsFor(indices, row).value;
      assert |vs| == |Lookup(header, names, row)|;
      forall k | 0 <= k < |names| ensures vs[k] == Lookup(header, names, row)[k] {
        assert FirstIndex(header, names[k]) == Some(indices[k]);
      }
      assert vs == Lookup(header, names, row);
    } else {
      var k :| 0 <= k < |names| && !(names[k] in header && FirstIndex(header, names[k]).value < |row|);
      assert FirstIndex(header, names[k]) == Some(indices[k]);
    }
  }

  /** Projecting the header itself by names that occur in it gives back the names. */
  lemma {:induction false} ExtractHeader(header: Header, names: seq<Label>)
    requires forall k :: 0 <= k < |names| ==> names[k] in header
    ensures FieldsFor(Resolve(header, names).value, header) == Ok(names)
  {
    var indices := Resolve(header, names).value;
    forall k | 0 <= k < |names| ensures indices[k] < |header| && header[indices[k]] == names[k] {
      assert FirstIndex(header, names[k]) == Some(indices[k]);
    }
    var vs := FieldsFor(indices, header).value;
    assert |vs| == |names|;
    assert forall k :: 0 <= k < |names| ==> vs[k] == names[k];
    assert vs == names;
  }

  /** An extractor yields exactly the values at its positions. */
  lemma FieldsForIs<T>(indices: seq<nat>, row: seq<T>, values: seq<T>)
    requires |values| == |indices|
    requires forall k :: 0 <= k < |indices| ==> indices[k] < |row| && values[k] == row[indices[k]]
    ensures FieldsFor(indices, row) == Ok(values)
  {
    assert FieldsFor(indices, row).value == values;
  }
}
