/** What the filters of tabstream/__init__.py share through `stream_filter`:
    each pulls the header of its input as soon as it is applied, so an input
    that ends or fails before its header makes the filter fail at once, and a
    pipe of such filters passes that failure through unchanged. */
module Pipeline {
  import opened Streams
  import Tabstream
  import Renaming

  /** A filter that pulls the header eagerly: on an input that raised before
      its header it raises the same exception, on an input that simply ended
      it raises StopIteration. */
  ghost predicate PullsHeader(filter: Stream -> Stream)
  {
    && filter(Headless(None)) == Headless(Some(StopIteration))
    && forall e :: filter(Headless(Some(e))) == Headless(Some(e))
  }

  /** Every stream filter of the package pulls the header eagerly. */
  lemma FiltersPullHeader(output: Label, derive: seq<Value> -> Value, inputs: seq<Label>,
                          doomed: set<Label>, field: Label)
    ensures PullsHeader(s => Tabstream.Padded(s))
    ensures PullsHeader(s => Tabstream.FieldAdded(output, derive, inputs, s))
    ensures PullsHeader(s => Tabstream.FieldsDeleted(doomed, s))
    ensures PullsHeader(s => Tabstream.Numbered(field, s))
  {
  }

  /** `rename` pulls the header eagerly too, before its assertion is checked. */
  lemma RenamePullsHeader(renames: map<Label, Label>, order: seq<Label>, e: Error)
    requires Renaming.Enumerates(order, renames)
    ensures Renaming.Renamed(renames, order, Headless(None)) == Headless(Some(StopIteration))
    ensures Renaming.Renamed(renames, order, Headless(Some(e))) == Headless(Some(e))
  {
  }

  /** A pipe of at least one such filter fails at once on an input without a
      header: with the input's own exception, or StopIteration when the input
      simply ended. */
  lemma {:induction false} PipeHeaderless(filters: seq<Stream -> Stream>, failure: Option<Error>)
    requires filters != []
    requires forall k :: 0 <= k < |filters| ==> PullsHeader(filters[k])
    ensures failure.None? ==> Tabstream.Composed(filters, Headless(failure)) == Headless(Some(StopIteration))
    ensures failure.Some? ==> Tabstream.Composed(filters, Headless(failure)) == Headless(failure)
  {
    var first := filters[0](Headless(failure));
    assert PullsHeader(filters[0]);
    assert first.Headless? && first.failure.Some?;
    assert failure.None? ==> first == Headless(Some(StopIteration));
    assert failure.Some? ==> first == Headless(failure);
    if |filters| > 1 {
      PipeHeaderless(filters[1..], first.failure);
    }
  }
}
