/** The earliest iteration, the `csvx` module (csvx.py): `fix_missing_columns`
    and `select`, written without the `stream_filter` decorator. */
module CsvxScript {
  import opened Streams
  import opened Extractors
  import Tabstream
  import CsvxPackage

  /** `fix_missing_columns`, the generator loop. It pulls the header inside
      its own body, so it behaves as the `csvx` package's `pad`, whose loop is
      the one it runs. */
  method FixMissingColumns(s: Stream) returns (r: Stream)
    ensures r == CsvxPackage.Padded(s)
  {
    r := CsvxPackage.Pad(s);
  }

  /** What `fix_missing_columns` promises: the header is yielded first and
      unchanged; a row of the header's length is unchanged, a shorter one gets
      exactly header-length minus row-length empty strings; every row before
      the first one longer than the header is yielded, and that row raises
      ValueError and ends the run; without such a row the run ends as its
      input does. */
  lemma FixMissingColumnsContract(s: Stream)
    requires s.Tagged?
    ensures var r := CsvxPackage.Padded(s);
      && r.Tagged? && r.header == s.header
      && (forall k :: 0 <= k < |r.rows| && |s.rows[k]| == |s.header| ==> r.rows[k] == s.rows[k])
      && (forall k :: 0 <= k < |r.rows| ==>
            |s.rows[k]| <= |s.header| && |r.rows[k]| == |s.header| &&
            r.rows[k][..|s.rows[k]|] == s.rows[k] &&
            forall j :: |s.rows[k]| <= j < |s.header| ==> r.rows[k][j] == Empty)
      && (forall k :: 0 <= k < |s.rows| && |s.rows[k]| > |s.header| ==>
            |r.rows| <= k && r.failure.Some? && r.failure.value.RowTooLong?)
      && |r.rows| <= |s.rows|
      && (|r.rows| < |s.rows| ==>
            |s.rows[|r.rows|]| > |s.header| && r.failure == Some(RowTooLong(s.rows[|r.rows|])))
      && (|r.rows| == |s.rows| ==> r.failure == s.failure)
  {
    var r := CsvxPackage.Padded(s);
    Tabstream.PadContract(s);
    forall k | 0 <= k < |r.rows|
      ensures r.rows[k][..|s.rows[k]|] == s.rows[k]
      ensures forall j :: |s.rows[k]| <= j < |s.header| ==> r.rows[k][j] == Empty
    {
      assert Tabstream.PadRow(|s.header|, s.rows[k]) == Ok(r.rows[k]);
    }
  }

  /** `select`: the names are resolved against the header as soon as it is
      called, so an unknown name raises ValueError before any row is produced,
      and an input without a header raises at once. Then each row yields, in
      request order and with repeats, the values at the leftmost positions of
      the names, bare when a single name was requested; the generator
      expression is the same as that of `Tabstream.Select`. */
  function Select(s: Stream, names: seq<Label>): (r: Result<Tail<Tabstream.Picked>>)
    ensures s.Headless? ==> r == Err(HeaderlessFailure(s.failure))
    ensures s.Tagged? && (exists k :: 0 <= k < |names| && names[k] !in s.header) ==>
              r.Err? && r.error.UnknownName? && r.error.name in names && r.error.name !in s.header
    ensures s.Tagged? && names == [] ==> r == Err(NoIndices)
    ensures s.Tagged? ==> (r.Ok? <==> names != [] && forall k :: 0 <= k < |names| ==> names[k] in s.header)
    ensures r.Ok? ==> |r.value.items| <= |s.rows|
    ensures r.Ok? ==> forall k :: 0 <= k < |r.value.items| ==>
              && Covers(s.header, names, s.rows[k])
              && r.value.items[k] == if |names| == 1 then Tabstream.Single(Lookup(s.header, names, s.rows[k])[0])
                                     else Tabstream.Many(Lookup(s.header, names, s.rows[k]))
    ensures r.Ok? && |r.value.items| < |s.rows| ==>
              !Covers(s.header, names, s.rows[|r.value.items|]) && r.value.failure == Some(IndexOutOfRange)
    ensures r.Ok? && |r.value.items| == |s.rows| ==> r.value.failure == s.failure
  {
    var r := Tabstream.Select(s, names);
    if r.Ok? then
      Tabstream.SelectRows(s, names);
      r
    else r
  }
}
