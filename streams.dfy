/** Header-tagged streams: the data contract shared by every filter.

    A stream's first element is a header (a sequence of column labels), every
    later element a row of cell values. Python generators are lazy; a finite run
    of one is modelled by what it produces before it stops: the header (unless it
    stopped before producing one), the rows, and the exception it raised after
    them, if any.
 */
module Streams {

  datatype Option<T> = None | Some(value: T)

  /** A cell. Rows read from delimited text hold Text; row numbering adds Numbers. */
  datatype Value = Text(text: string) | Number(number: int)

  /** The filler appended to short rows (the empty unicode string). */
  const Empty: Value := Text("")

  type Label = string
  type Header = seq<Label>
  type Row = seq<Value>

  /** The exceptions raised by the filters. */
  datatype Error =
    | StopIteration                // a header was pulled from an exhausted input
    | RowTooLong(row: Row)         // ValueError: a row has more values than the header
    | UnknownName(name: Label)     // ValueError from header.index(name)
    | IndexOutOfRange              // IndexError: a row is too short for an extractor
    | NoIndices                    // TypeError: operator.itemgetter() given no index
    | AssertionFailed(missing: Label) // AssertionError: a renamed-from label is absent

  datatype Result<T> = Ok(value: T) | Err(error: Error)

  /** A finite run of a header-tagged stream. */
  datatype Stream =
    | Headless(failure: Option<Error>)
    | Tagged(header: Header, rows: seq<Row>, failure: Option<Error>)

  /** A finite run of a plain (untagged) stream. */
  datatype Tail<T> = Tail(items: seq<T>, failure: Option<Error>)

  /** No element occurs twice. */
  ghost predicate Distinct<T>(s: seq<T>)
  {
    forall i, j :: 0 <= i < j < |s| ==> s[i] != s[j]
  }

  /** `count` filler values. */
  function Fill(count: nat): (r: Row)
    ensures |r| == count && forall k :: 0 <= k < count ==> r[k] == Empty
  {
    seq(count, _ => Empty)
  }

  /** Python's `list.index`: the leftmost position of `x` in `s`, by linear scan. */
  function FirstIndex<T(==)>(s: seq<T>, x: T): (r: Option<nat>)
    ensures r.None? <==> x !in s
    ensures r.Some? ==> r.value < |s| && s[r.value] == x && x !in s[..r.value]
  {
    if s == [] then None
    else if s[0] == x then Some(0)
    else match FirstIndex(s[1..], x)
      case None => None
      case Some(i) =>
        assert s[..i + 1] == [s[0]] + s[1..][..i];
        Some(i + 1)
  }

  /** The exception a filter of the later iteration raises when its input has no
      header: `stream_filter` pulls the header eagerly, so the input's own
      exception escapes, or StopIteration when the input is simply empty. */
  function HeaderlessFailure(failure: Option<Error>): Error
  {
    match failure
    case Some(e) => e
    case None => StopIteration
  }

  /** The run of a generator `for x in xs: yield f(x)` whose step may raise:
      the results of the steps up to the first one that raises, then that
      exception; if no step raises, the input's own exception (`failure`)
      propagates through the loop. */
  function Drain<A, B>(f: A -> Result<B>, xs: seq<A>, failure: Option<Error>): (t: Tail<B>)
    ensures |t.items| <= |xs|
    ensures forall k :: 0 <= k < |t.items| ==> f(xs[k]) == Ok(t.items[k])
    ensures |t.items| < |xs| ==> f(xs[|t.items|]).Err? && t.failure == Some(f(xs[|t.items|]).error)
    ensures |t.items| == |xs| ==> t.failure == failure
    decreases |xs|
  {
    if xs == [] then Tail([], failure)
    else match f(xs[0])
      case Err(e) => Tail([], Some(e))
      case Ok(y) =>
        var t := Drain(f, xs[1..], failure);
        Tail([y] + t.items, t.failure)
  }

  /** The run of such a generator is determined by the results of its steps:
      any output that agrees with the steps up to the first raising one is the run. */
  lemma DrainUnique<A, B>(f: A -> Result<B>, xs: seq<A>, failure: Option<Error>,
                          out: seq<B>, stop: Option<Error>)
    requires |out| <= |xs|
    requires forall k :: 0 <= k < |out| ==> f(xs[k]) == Ok(out[k])
    requires |out| < |xs| ==> f(xs[|out|]).Err? && stop == Some(f(xs[|out|]).error)
    requires |out| == |xs| ==> stop == failure
    ensures Drain(f, xs, failure) == Tail(out, stop)
  {
    var t := Drain(f, xs, failure);
    assert |t.items| == |out|;
    forall k | 0 <= k < |out|
      ensures t.items[k] == out[k]
    {
      assert f(xs[k]) == Ok(t.items[k]);
    }
  }
}
