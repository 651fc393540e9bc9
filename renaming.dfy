/** The `rename` filter of tabstream/__init__.py: relabels columns by a map
    from new labels to old ones, which can also duplicate a column under a
    second label or overwrite a column that already bears the new label.

    `renames` is the map `new_to_old`; `order` is the order in which
    `iteritems()` visits its keys, a parameter of the model since Python leaves
    it unspecified. Only the label reported by the AssertionError depends on it. */
module Renaming {
  import opened Streams
  import opened Extractors
  import opened Ordering
  import Tabstream

  /** `{label: i for i, label in enumerate(header)}`: each label of the header
      at its rightmost position, as later pairs overwrite earlier ones. */
  function Positions(header: Header): (m: map<Label, nat>)
    ensures m.Keys == set l | l in header
    decreases |header|
  {
    if header == [] then map[]
    else Positions(header[..|header| - 1])[header[|header| - 1] := |header| - 1]
  }

  /** Each label of the header is mapped to a position that holds it and that no
      later position repeats. */
  lemma {:induction false} PositionsRightmost(header: Header, l: Label)
    requires l in header
    ensures var m := Positions(header);
            m[l] < |header| && header[m[l]] == l && l !in header[m[l] + 1..]
    decreases |header|
  {
    var init := header[..|header| - 1];
    var last := header[|header| - 1];
    assert header == init + [last];
    if l != last {
      PositionsRightmost(init, l);
      var p := Positions(init)[l];
      assert header[p + 1..] == init[p + 1..] + [last];
    }
  }

  /** `order` lists every key of `renames` exactly once, as `iteritems()` does. */
  ghost predicate Enumerates(order: seq<Label>, renames: map<Label, Label>)
  {
    && (forall k :: 0 <= k < |order| ==> order[k] in renames)
    && (forall n :: n in renames ==> n in order)
    && Distinct(order)
  }

  /** Every renamed-from label occurs in the header. */
  ghost predicate Known(header: Header, renames: map<Label, Label>)
  {
    forall n :: n in renames ==> renames[n] in header
  }

  /** The renamed-from label the loop of `_get_label_index_seq` fails its
      assertion on: the first one, in iteration order, missing from the header. */
  function FirstUnknown(header: Header, renames: map<Label, Label>, order: seq<Label>): (r: Option<Label>)
    requires forall k :: 0 <= k < |order| ==> order[k] in renames
    ensures r.None? <==> forall k :: 0 <= k < |order| ==> renames[order[k]] in header
    ensures r.Some? ==> exists k :: 0 <= k < |order| && r.value == renames[order[k]]
                                    && r.value !in header
                                    && forall j :: 0 <= j < k ==> renames[order[j]] in header
  {
    if order == [] then None
    else if renames[order[0]] !in header then Some(renames[order[0]])
    else
      var r := FirstUnknown(header, renames, order[1..]);
      assert forall k :: 1 <= k < |order| ==> order[k] == order[1..][k - 1];
      r
  }

  /** The assertion fails for some iteration order exactly when it fails for every one. */
  lemma KnownIff(header: Header, renames: map<Label, Label>, order: seq<Label>)
    requires Enumerates(order, renames)
    ensures FirstUnknown(header, renames, order).None? <==> Known(header, renames)
  {
    if FirstUnknown(header, renames, order).None? {
      forall n | n in renames ensures renames[n] in header {
        var k :| 0 <= k < |order| && order[k] == n;
      }
    }
  }

  /** The label-to-position map `_get_label_index_seq` builds: the header's own
      labels at their rightmost positions, less every renamed-from label; then
      each new label at the leftmost position of its old label, overriding an
      original label of the same name. */
  ghost function PlanMap(header: Header, renames: map<Label, Label>): map<Label, nat>
    requires Known(header, renames)
  {
    (Positions(header) - renames.Values)
      + map n | n in renames :: FirstIndex(header, renames[n]).value
  }

  /** What the plan means: a new label takes its old label's leftmost column; an
      original label survives, at its rightmost column, unless it is renamed
      from; nothing else appears. */
  lemma PlanMapMeaning(header: Header, renames: map<Label, Label>)
    requires Known(header, renames)
    ensures var plan := PlanMap(header, renames);
      && (forall l :: l in plan <==> l in renames || (l in header && l !in renames.Values))
      && (forall n :: n in renames ==>
            plan[n] < |header| && header[plan[n]] == renames[n] && renames[n] !in header[..plan[n]])
      && (forall l :: l in plan && l !in renames ==>
            plan[l] < |header| && header[plan[l]] == l && l !in header[plan[l] + 1..])
  {
    var plan := PlanMap(header, renames);
    var moved := map n | n in renames :: FirstIndex(header, renames[n]).value;
    var kept := Positions(header) - renames.Values;
    assert plan == kept + moved;
    forall n | n in renames
      ensures plan[n] < |header| && header[plan[n]] == renames[n] && renames[n] !in header[..plan[n]]
    {
      assert plan[n] == moved[n];
    }
    forall l | l in plan && l !in renames
      ensures plan[l] < |header| && header[plan[l]] == l && l !in header[plan[l] + 1..]
    {
      assert l !in moved && plan[l] == kept[l];
      PositionsRightmost(header, l);
    }
  }

  /** `PlanMapMeaning` at one label. */
  lemma PlanKeyAt(header: Header, renames: map<Label, Label>, l: Label)
    requires Known(header, renames)
    ensures l in PlanMap(header, renames) <==> l in renames || (l in header && l !in renames.Values)
  {
    PlanMapMeaning(header, renames);
  }

  /** The `(label, index)` items of a map. */
  ghost function EntrySet(m: map<Label, nat>): set<Entry>
  {
    set l | l in m :: Entry(l, m[l])
  }

  lemma EntrySetRemove(m: map<Label, nat>, l: Label)
    requires l in m
    ensures multiset(EntrySet(m)) == multiset(EntrySet(m - {l})) + multiset{Entry(l, m[l])}
  {
    var e := Entry(l, m[l]);
    var rest := m - {l};
    forall x | x in EntrySet(m) ensures x in EntrySet(rest) + {e} {
      var k :| k in m && x == Entry(k, m[k]);
      if k != l {
        assert k in rest && x == Entry(k, rest[k]);
      }
    }
    forall x | x in EntrySet(rest) ensures x in EntrySet(m) && x != e {
      var k :| k in rest && x == Entry(k, rest[k]);
      assert k in m && x == Entry(k, m[k]);
    }
    assert EntrySet(m) == EntrySet(rest) + {e};
    assert e !in EntrySet(rest);
  }

  /** `old_header.items()`: the items of a map, in an order left unspecified. */
  ghost function Items(m: map<Label, nat>): (r: seq<Entry>)
    ensures multiset(r) == multiset(EntrySet(m))
    decreases |m|
  {
    if m == map[] then
      assert EntrySet(m) == {};
      []
    else
      var l :| l in m;
      EntrySetRemove(m, l);
      assert |m - {l}| < |m| by {
        assert (m - {l}).Keys + {l} == m.Keys;
      }
      [Entry(l, m[l])] + Items(m - {l})
  }

  /** The list `_get_sorted_label_index_seq` returns. */
  ghost function Plan(header: Header, renames: map<Label, Label>): seq<Entry>
    requires Known(header, renames)
  {
    Sort(header, Items(PlanMap(header, renames)))
  }

  function Labels(plan: seq<Entry>): (r: Header)
    ensures |r| == |plan| && forall p :: 0 <= p < |plan| ==> r[p] == plan[p].name
  {
    seq(|plan|, p requires 0 <= p < |plan| => plan[p].name)
  }

  function Indices(plan: seq<Entry>): (r: seq<nat>)
    ensures |r| == |plan| && forall p :: 0 <= p < |plan| ==> r[p] == plan[p].index
  {
    seq(|plan|, p requires 0 <= p < |plan| => plan[p].index)
  }

  /** The run of the filter made by `rename(renames)`: when a renamed-from label
      is missing, the AssertionError is raised before the header is yielded;
      otherwise the header is the plan's labels and each row the values at the
      plan's positions. */
  ghost function Renamed(renames: map<Label, Label>, order: seq<Label>, s: Stream): Stream
    requires Enumerates(order, renames)
  {
    match s
    case Headless(failure) => Headless(Some(HeaderlessFailure(failure)))
    case Tagged(header, rows, failure) =>
      match FirstUnknown(header, renames, order)
      case Some(missing) => Headless(Some(AssertionFailed(missing)))
      case None =>
        KnownIff(header, renames, order);
        var plan := Plan(header, renames);
        var t := Drain(Tabstream.FieldsStep(Indices(plan)), rows, failure);
        Tagged(Labels(plan), t.items, t.failure)
  }

  /** Once the loop has visited every renamed-from label, merging its two maps gives the plan. */
  lemma MergedIsPlan(header: Header, renames: map<Label, Label>,
                     oldHeader: map<Label, nat>, removed: set<Label>, newHeader: map<Label, nat>)
    requires Known(header, renames)
    requires removed == renames.Values && oldHeader == Positions(header) - removed
    requires newHeader.Keys == renames.Keys
    requires forall n :: n in newHeader ==> newHeader[n] == FirstIndex(header, renames[n]).value
    ensures oldHeader + newHeader == PlanMap(header, renames)
  {
    var moved := map n | n in renames :: FirstIndex(header, renames[n]).value;
    assert newHeader == moved;
    assert PlanMap(header, renames) == (Positions(header) - renames.Values) + moved;
  }

  /** The items of a map listed one by one, as `items()` does, in some order. */
  method ListItems(m: map<Label, nat>) returns (items: seq<Entry>)
    ensures multiset(items) == multiset(EntrySet(m))
  {
    items := [];
    var rest := m;
    while rest != map[]
      invariant multiset(items) + multiset(EntrySet(rest)) == multiset(EntrySet(m))
      decreases |rest|
    {
      var l :| l in rest;
      EntrySetRemove(rest, l);
      items := items + [Entry(l, rest[l])];
      assert |rest - {l}| < |rest| by {
        assert (rest - {l}).Keys + {l} == rest.Keys;
      }
      rest := rest - {l};
    }
    assert EntrySet(rest) == {};
  }

  /** The state of the loop of `_get_label_index_seq` after visiting the
      first `i` keys: their old labels all occur in the header and have been
      deleted from the position map, and their new labels sit at the leftmost
      positions of their old ones. */
  ghost predicate Visited(header: Header, renames: map<Label, Label>, order: seq<Label>, i: nat,
                          oldHeader: map<Label, nat>, removed: set<Label>, newHeader: map<Label, nat>)
    requires Enumerates(order, renames)
  {
    && i <= |order|
    && (forall k :: 0 <= k < i ==> renames[order[k]] in header)
    && removed <= renames.Values
    && (forall k :: 0 <= k < i ==> renames[order[k]] in removed)
    && oldHeader == Positions(header) - removed
    && (forall k :: 0 <= k < i ==> order[k] in newHeader)
    && (forall n :: n in newHeader ==>
          n in renames && renames[n] in header && newHeader[n] == FirstIndex(header, renames[n]).value)
  }

  lemma VisitedStart(header: Header, renames: map<Label, Label>, order: seq<Label>)
    requires Enumerates(order, renames)
    ensures Visited(header, renames, order, 0, Positions(header), {}, map[])
  {
    assert Positions(header) - {} == Positions(header);
  }

  /** One turn of the loop, for a key whose old label occurs in the header. */
  lemma VisitedStep(header: Header, renames: map<Label, Label>, order: seq<Label>, i: nat,
                    oldHeader: map<Label, nat>, removed: set<Label>, newHeader: map<Label, nat>,
                    nextOld: map<Label, nat>)
    requires Enumerates(order, renames)
    requires Visited(header, renames, order, i, oldHeader, removed, newHeader)
    requires i < |order| && renames[order[i]] in header
    requires nextOld == if renames[order[i]] in oldHeader then oldHeader - {renames[order[i]]} else oldHeader
    ensures Visited(header, renames, order, i + 1, nextOld, removed + {renames[order[i]]},
                    newHeader[order[i] := FirstIndex(header, renames[order[i]]).value])
  {
    var oldName := renames[order[i]];
    assert oldName in renames.Values;
    DeleteOnce(Positions(header), removed, oldName, nextOld);
    StepRecords(header, renames, order, i, removed, newHeader);
  }

  /** One turn of the loop records the visited key in both of its collections. */
  lemma StepRecords(header: Header, renames: map<Label, Label>, order: seq<Label>, i: nat,
                    removed: set<Label>, newHeader: map<Label, nat>)
    requires i < |order| && forall k :: 0 <= k < |order| ==> order[k] in renames
    requires renames[order[i]] in header
    requires forall k :: 0 <= k < i ==> renames[order[k]] in removed
    requires forall k :: 0 <= k < i ==> order[k] in newHeader
    requires forall n :: n in newHeader ==>
               n in renames && renames[n] in header && newHeader[n] == FirstIndex(header, renames[n]).value
    ensures var removed' := removed + {renames[order[i]]};
            forall k :: 0 <= k < i + 1 ==> renames[order[k]] in removed'
    ensures var newHeader' := newHeader[order[i] := FirstIndex(header, renames[order[i]]).value];
      && (forall k :: 0 <= k < i + 1 ==> order[k] in newHeader')
      && (forall n :: n in newHeader' ==>
            n in renames && renames[n] in header && newHeader'[n] == FirstIndex(header, renames[n]).value)
  {
  }

  /** Deleting a key if present from a map less some keys is the map less one more key. */
  lemma DeleteOnce(m: map<Label, nat>, removed: set<Label>, x: Label, next: map<Label, nat>)
    requires next == if x in m - removed then (m - removed) - {x} else m - removed
    ensures next == m - (removed + {x})
  {
    assert next.Keys == (m - (removed + {x})).Keys;
  }

  /** The loop stops at the first key whose old label is missing from the header. */
  lemma VisitedUnknown(header: Header, renames: map<Label, Label>, order: seq<Label>, i: nat,
                       oldHeader: map<Label, nat>, removed: set<Label>, newHeader: map<Label, nat>)
    requires Enumerates(order, renames)
    requires Visited(header, renames, order, i, oldHeader, removed, newHeader)
    requires i < |order| && renames[order[i]] !in header
    ensures FirstUnknown(header, renames, order) == Some(renames[order[i]])
  {
    var r := FirstUnknown(header, renames, order);
    var k :| 0 <= k < |order| && r.value == renames[order[k]] && r.value !in header
             && forall j :: 0 <= j < k ==> renames[order[j]] in header;
    assert k == i;
  }

  /** Once the loop has visited every key, its two maps merge into the plan. */
  lemma LoopDone(header: Header, renames: map<Label, Label>, order: seq<Label>,
                 oldHeader: map<Label, nat>, removed: set<Label>, newHeader: map<Label, nat>)
    requires Enumerates(order, renames)
    requires Visited(header, renames, order, |order|, oldHeader, removed, newHeader)
    ensures FirstUnknown(header, renames, order).None?
    ensures Known(header, renames)
    ensures oldHeader + newHeader == PlanMap(header, renames)
  {
    KnownIff(header, renames, order);
    forall v | v in renames.Values ensures v in removed {
      var n :| n in renames && renames[n] == v;
      var k :| 0 <= k < |order| && order[k] == n;
    }
    assert newHeader.Keys == renames.Keys by {
      forall n | n in renames ensures n in newHeader {
        var k :| 0 <= k < |order| && order[k] == n;
      }
    }
    MergedIsPlan(header, renames, oldHeader, removed, newHeader);
  }

  /** `_get_label_index_seq`: the loop over `new_to_old.iteritems()` that
      deletes renamed-from labels from the position map and collects the new
      ones, then merges the two and lists the items. */
  method LabelIndexSeq(header: Header, renames: map<Label, Label>, order: seq<Label>)
    returns (r: Result<seq<Entry>>)
    requires Enumerates(order, renames)
    ensures r.Ok? <==> FirstUnknown(header, renames, order).None?
    ensures r.Err? ==> r.error == AssertionFailed(FirstUnknown(header, renames, order).value)
    ensures r.Ok? ==> Known(header, renames)
                      && multiset(r.value) == multiset(EntrySet(PlanMap(header, renames)))
  {
    var oldHeader := Positions(header);
    var newHeader: map<Label, nat> := map[];
    ghost var removed: set<Label> := {};
    VisitedStart(header, renames, order);
    for i := 0 to |order|
      invariant Visited(header, renames, order, i, oldHeader, removed, newHeader)
    {
      var newName := order[i];
      var oldName := renames[newName];
      if oldName !in header {
        VisitedUnknown(header, renames, order, i, oldHeader, removed, newHeader);
        return Err(AssertionFailed(oldName));
      }
      var index := FirstIndex(header, oldName).value;
      ghost var before := oldHeader;
      if oldName in oldHeader {
        oldHeader := oldHeader - {oldName};
      }
      VisitedStep(header, renames, order, i, before, removed, newHeader, oldHeader);
      removed := removed + {oldName};
      newHeader := newHeader[newName := index];
    }
    LoopDone(header, renames, order, oldHeader, removed, newHeader);
    var items := ListItems(oldHeader + newHeader);
    return Ok(items);
  }

  /** Unfolds the run of `rename` on a headed stream whose renamed-from labels all occur. */
  lemma RenamedTagged(renames: map<Label, Label>, order: seq<Label>, s: Stream)
    requires Enumerates(order, renames) && s.Tagged?
    requires FirstUnknown(s.header, renames, order).None?
    ensures Known(s.header, renames)
    ensures var plan := Plan(s.header, renames);
            var t := Drain(Tabstream.FieldsStep(Indices(plan)), s.rows, s.failure);
            Renamed(renames, order, s) == Tagged(Labels(plan), t.items, t.failure)
  {
    KnownIff(s.header, renames, order);
  }

  /** Sorting the items the loop listed gives the plan, whatever order they came in. */
  lemma SortedIsPlan(header: Header, renames: map<Label, Label>, listed: seq<Entry>)
    requires Known(header, renames)
    requires multiset(listed) == multiset(EntrySet(PlanMap(header, renames)))
    ensures Sort(header, listed) == Plan(header, renames)
  {
    AscendingUnique(header, Sort(header, listed), Plan(header, renames));
  }

  /** The run of `rename` given its plan and the run of the row loop. */
  lemma RenamedByPlan(renames: map<Label, Label>, order: seq<Label>, s: Stream,
                      plan: seq<Entry>, t: Tail<Row>)
    requires Enumerates(order, renames) && s.Tagged? && Known(s.header, renames)
    requires Plan(s.header, renames) == plan
    requires Drain(Tabstream.FieldsStep(Indices(plan)), s.rows, s.failure) == t
    ensures Renamed(renames, order, s) == Tagged(Labels(plan), t.items, t.failure)
  {
    KnownIff(s.header, renames, order);
    RenamedTagged(renames, order, s);
  }

  /** The filter made by `rename`, the generator loop. */
  method Rename(renames: map<Label, Label>, order: seq<Label>, s: Stream) returns (r: Stream)
    requires Enumerates(order, renames)
    ensures r == Renamed(renames, order, s)
  {
    if s.Headless? {
      return Headless(Some(HeaderlessFailure(s.failure)));
    }
    var header, rows := s.header, s.rows;
    var listed := LabelIndexSeq(header, renames, order);
    if listed.Err? {
      return Headless(Some(listed.error));
    }
    var plan := Sort(header, listed.value);
    SortedIsPlan(header, renames, listed.value);
    var labels := Labels(plan);
    var indices := Indices(plan);
    var out: seq<Row> := [];
    for i := 0 to |rows|
      invariant |out| == i
      invariant forall k :: 0 <= k < i ==> FieldsFor(indices, rows[k]) == Ok(out[k])
    {
      var fields := FieldsFor(indices, rows[i]);
      if fields.Err? {
        Streams.DrainUnique(Tabstream.FieldsStep(indices), rows, s.failure, out, Some(fields.error));
        RenamedByPlan(renames, order, s, plan, Tail(out, Some(fields.error)));
        return Tagged(labels, out, Some(fields.error));
      }
      out := out + [fields.value];
    }
    Streams.DrainUnique(Tabstream.FieldsStep(indices), rows, s.failure, out, s.failure);
    RenamedByPlan(renames, order, s, plan, Tail(out, s.failure));
    r := Tagged(labels, out, s.failure);
  }

  lemma DistinctTail(es: seq<Entry>, items: set<Entry>)
    requires Distinct(es) && es != []
    requires forall x :: x in es <==> x in items
    ensures Distinct(es[1..])
    ensures forall x :: x in es[1..] <==> x in items - {es[0]}
  {
    var rest := es[1..];
    forall i, j | 0 <= i < j < |rest| ensures rest[i] != rest[j] {
      assert rest[i] == es[i + 1] && rest[j] == es[j + 1];
    }
    forall x ensures x in rest <==> x in items - {es[0]} {
      if x in rest {
        var j :| 0 <= j < |rest| && rest[j] == x;
        assert es[j + 1] == x;
      }
      if x in items && x != es[0] {
        var j :| 0 <= j < |es| && es[j] == x;
        assert rest[j - 1] == x;
      }
    }
  }

  /** A sequence without repeats holds each member of its set exactly once. */
  lemma {:induction false} DistinctMultiset(es: seq<Entry>, items: set<Entry>)
    requires Distinct(es)
    requires forall x :: x in es <==> x in items
    ensures multiset(es) == multiset(items)
  {
    if es == [] {
      assert items == {};
    } else {
      var e, rest := es[0], es[1..];
      DistinctTail(es, items);
      DistinctMultiset(rest, items - {e});
      assert es == [e] + rest;
      assert multiset(es) == multiset{e} + multiset(rest);
      SetMultisetRemove(items, e);
    }
  }

  lemma SetMultisetRemove(items: set<Entry>, e: Entry)
    requires e in items
    ensures multiset(items) == multiset(items - {e}) + multiset{e}
  {
    assert items == (items - {e}) + {e};
  }

  /** A sequence whose multiset is that of a set has no repeats. */
  lemma SetMultisetDistinct(es: seq<Entry>, items: set<Entry>)
    requires multiset(es) == multiset(items)
    ensures Distinct(es)
  {
    forall i, j | 0 <= i < j < |es| ensures es[i] != es[j] {
      assert es == es[..j] + es[j..];
      assert multiset(es)[es[j]] == multiset(es[..j])[es[j]] + multiset(es[j..])[es[j]];
      assert es[..j][i] == es[i] && es[j..][0] == es[j];
      assert es[i] in multiset(es[..j]) && es[j] in multiset(es[j..]);
      assert multiset(items)[es[j]] <= 1;
    }
  }

  /** Each item of the plan is an item of `PlanMap`, and each item of `PlanMap` is in the plan. */
  lemma PlanItems(header: Header, renames: map<Label, Label>)
    requires Known(header, renames)
    ensures var plan := Plan(header, renames);
            var m := PlanMap(header, renames);
      && (forall p :: 0 <= p < |plan| ==> plan[p].name in m && m[plan[p].name] == plan[p].index)
      && (forall l :: l in m ==> exists p :: 0 <= p < |plan| && plan[p].name == l)
  {
    var plan := Plan(header, renames);
    var m := PlanMap(header, renames);
    var items := EntrySet(m);
    assert multiset(plan) == multiset(items);
    forall p | 0 <= p < |plan| ensures plan[p].name in m && m[plan[p].name] == plan[p].index {
      assert plan[p] in multiset(plan);
      assert plan[p] in items;
    }
    forall l | l in m ensures exists p :: 0 <= p < |plan| && plan[p].name == l {
      assert Entry(l, m[l]) in items;
      assert Entry(l, m[l]) in multiset(plan);
    }
  }

  /** The plan is strictly in key order, so no label appears in it twice. */
  lemma PlanStrict(header: Header, renames: map<Label, Label>)
    requires Known(header, renames)
    ensures var plan := Plan(header, renames);
      && (forall p, q :: 0 <= p < q < |plan| ==> KeyLess(header, plan[p], plan[q]))
      && (forall p, q :: 0 <= p < q < |plan| ==> plan[p].name != plan[q].name)
  {
    var plan := Plan(header, renames);
    SetMultisetDistinct(plan, EntrySet(PlanMap(header, renames)));
    AscendingStrict(header, plan);
    PlanItems(header, renames);
  }

  /** Any arrangement of the items of `PlanMap` without repeats that is in key order is the plan. */
  lemma PlanIs(header: Header, renames: map<Label, Label>, plan: seq<Entry>)
    requires Known(header, renames)
    requires Ascending(header, plan) && Distinct(plan)
    requires forall x :: x in plan <==> x in EntrySet(PlanMap(header, renames))
    ensures Plan(header, renames) == plan
  {
    DistinctMultiset(plan, EntrySet(PlanMap(header, renames)));
    AscendingUnique(header, plan, Plan(header, renames));
  }

  /** The header `rename` yields when every renamed-from label occurs in the
      input header: each label of the plan once, that is the new labels and the
      surviving original ones; the columns in the order of their source
      positions, at a shared position an original label first and the rest
      alphabetically. */
  lemma RenameHeader(renames: map<Label, Label>, order: seq<Label>, s: Stream)
    requires Enumerates(order, renames) && s.Tagged? && Known(s.header, renames)
    ensures var r := Renamed(renames, order, s);
            var m := PlanMap(s.header, renames);
      && r.Tagged?
      && Distinct(r.header)
      && (forall l :: l in r.header <==> l in m)
      && (forall p, q :: 0 <= p < q < |r.header| ==>
            KeyLess(s.header, Entry(r.header[p], m[r.header[p]]), Entry(r.header[q], m[r.header[q]])))
  {
    KnownIff(s.header, renames, order);
    RenamedTagged(renames, order, s);
    PlanItems(s.header, renames);
    PlanStrict(s.header, renames);
    LabelsOfPlan(s.header, Plan(s.header, renames), PlanMap(s.header, renames));
  }

  /** The labels of a strictly ordered arrangement of a map's items. */
  lemma LabelsOfPlan(header: Header, plan: seq<Entry>, m: map<Label, nat>)
    requires forall p :: 0 <= p < |plan| ==> plan[p].name in m && m[plan[p].name] == plan[p].index
    requires forall l :: l in m ==> exists p :: 0 <= p < |plan| && plan[p].name == l
    requires forall p, q :: 0 <= p < q < |plan| ==> KeyLess(header, plan[p], plan[q])
    requires forall p, q :: 0 <= p < q < |plan| ==> plan[p].name != plan[q].name
    ensures var labels := Labels(plan);
      && Distinct(labels)
      && (forall l :: l in labels <==> l in m)
      && (forall p, q :: 0 <= p < q < |labels| ==>
            KeyLess(header, Entry(labels[p], m[labels[p]]), Entry(labels[q], m[labels[q]])))
  {
    var labels := Labels(plan);
    forall l | l in m ensures l in labels {
      var p :| 0 <= p < |plan| && plan[p].name == l;
      assert labels[p] == l;
    }
    forall p | 0 <= p < |labels| ensures Entry(labels[p], m[labels[p]]) == plan[p] {
    }
  }

  /** The rows `rename` yields when every renamed-from label occurs in the
      input header: under each output label, the value at the label's source
      position, so each row matches the header in length; a row too short for
      some source position raises IndexError and ends the run. */
  lemma RenameRows(renames: map<Label, Label>, order: seq<Label>, s: Stream)
    requires Enumerates(order, renames) && s.Tagged? && Known(s.header, renames)
    ensures var r := Renamed(renames, order, s);
            var m := PlanMap(s.header, renames);
      && r.Tagged?
      && (forall l :: l in r.header ==> l in m)
      && |r.rows| <= |s.rows|
      && (forall k :: 0 <= k < |r.rows| ==>
            |r.rows[k]| == |r.header|
            && forall p :: 0 <= p < |r.header| ==>
                 m[r.header[p]] < |s.rows[k]| && r.rows[k][p] == s.rows[k][m[r.header[p]]])
      && (|r.rows| < |s.rows| ==>
            r.failure == Some(IndexOutOfRange)
            && exists l :: l in m && m[l] >= |s.rows[|r.rows|]|)
      && (|r.rows| == |s.rows| ==> r.failure == s.failure)
  {
    KnownIff(s.header, renames, order);
    RenamedTagged(renames, order, s);
    PlanItems(s.header, renames);
    var plan := Plan(s.header, renames);
    var m := PlanMap(s.header, renames);
    var labels, indices := Labels(plan), Indices(plan);
    var t := Drain(Tabstream.FieldsStep(indices), s.rows, s.failure);
    assert Renamed(renames, order, s) == Tagged(labels, t.items, t.failure);
    forall p | 0 <= p < |labels| ensures labels[p] in m && m[labels[p]] == indices[p] {
    }
    RowsByIndices(labels, indices, m, s.rows, s.failure);
  }

  /** The row loop of `rename`, for any labels whose source positions are the
      extractor's indices. */
  lemma RowsByIndices(labels: Header, indices: seq<nat>, m: map<Label, nat>, rows: seq<Row>, failure: Option<Error>)
    requires |labels| == |indices|
    requires forall p :: 0 <= p < |labels| ==> labels[p] in m && m[labels[p]] == indices[p]
    ensures var t := Drain(Tabstream.FieldsStep(indices), rows, failure);
      && (forall k :: 0 <= k < |t.items| ==>
            |t.items[k]| == |labels|
            && forall p :: 0 <= p < |labels| ==>
                 m[labels[p]] < |rows[k]| && t.items[k][p] == rows[k][m[labels[p]]])
      && (|t.items| < |rows| ==>
            t.failure == Some(IndexOutOfRange)
            && exists l :: l in m && m[l] >= |rows[|t.items|]|)
  {
    var t := Drain(Tabstream.FieldsStep(indices), rows, failure);
    forall k | 0 <= k < |t.items|
      ensures |t.items[k]| == |labels|
      ensures forall p :: 0 <= p < |labels| ==>
                m[labels[p]] < |rows[k]| && t.items[k][p] == rows[k][m[labels[p]]]
    {
      assert Tabstream.FieldsStep(indices)(rows[k]) == Ok(t.items[k]);
      assert FieldsFor(indices, rows[k]) == Ok(t.items[k]);
    }
    if |t.items| < |rows| {
      var row := rows[|t.items|];
      assert Tabstream.FieldsStep(indices)(row).Err?;
      assert FieldsFor(indices, row).Err?;
      var p :| 0 <= p < |indices| && indices[p] >= |row|;
      assert m[labels[p]] >= |row|;
    }
  }

  /** The assertion's outcome does not depend on the iteration order: when a
      renamed-from label is missing, the run raises AssertionError before the
      header, naming some missing renamed-from label, in every order; when none
      is missing, every order gives the same run. */
  lemma RenameOrderIndependent(renames: map<Label, Label>, order1: seq<Label>, order2: seq<Label>, s: Stream)
    requires Enumerates(order1, renames) && Enumerates(order2, renames) && s.Tagged?
    ensures !Known(s.header, renames) ==>
              exists missing :: missing in renames.Values && missing !in s.header
                                && Renamed(renames, order1, s) == Headless(Some(AssertionFailed(missing)))
    ensures Known(s.header, renames) ==> Renamed(renames, order1, s) == Renamed(renames, order2, s)
  {
    KnownIff(s.header, renames, order1);
    KnownIff(s.header, renames, order2);
    if !Known(s.header, renames) {
      var missing := FirstUnknown(s.header, renames, order1).value;
      var k :| 0 <= k < |order1| && missing == renames[order1[k]];
      assert missing in renames.Values;
    }
  }

  /** The label a column bears after an in-place relabelling: the new label
      renamed from it, if any, else its own. */
  ghost function InPlaceLabel(renames: map<Label, Label>, l: Label): (n: Label)
    ensures l in renames.Values ==> n in renames && renames[n] == l
    ensures l !in renames.Values ==> n == l
  {
    if l in renames.Values then var n :| n in renames && renames[n] == l; n else l
  }

  /** Each new label names a different old label. */
  ghost predicate Injective(renames: map<Label, Label>)
  {
    forall n1, n2 :: n1 in renames && n2 in renames && n1 != n2 ==> renames[n1] != renames[n2]
  }

  /** The conditions of an in-place relabelling: no repeated label in the
      header, every renamed-from label present, distinct new labels for
      distinct old ones, and a new label that is already in the header is
      itself renamed away. */
  ghost predicate InPlace(header: Header, renames: map<Label, Label>)
  {
    && Distinct(header)
    && Known(header, renames)
    && Injective(renames)
    && (forall n :: n in renames && n in header ==> n in renames.Values)
  }

  /** Under an in-place relabelling each column keeps its position under its new label. */
  lemma InPlacePlan(header: Header, renames: map<Label, Label>)
    requires InPlace(header, renames)
    ensures Plan(header, renames)
              == seq(|header|, p requires 0 <= p < |header| => Entry(InPlaceLabel(renames, header[p]), p))
  {
    var plan := seq(|header|, p requires 0 <= p < |header| => Entry(InPlaceLabel(renames, header[p]), p));
    InPlaceItems(header, renames, plan);
    InPlaceItemsCovered(header, renames, plan);
    PlanIs(header, renames, plan);
  }

  lemma InPlaceItems(header: Header, renames: map<Label, Label>, plan: seq<Entry>)
    requires InPlace(header, renames)
    requires plan == seq(|header|, p requires 0 <= p < |header| => Entry(InPlaceLabel(renames, header[p]), p))
    ensures forall x :: x in plan ==> x in EntrySet(PlanMap(header, renames))
  {
    var m := PlanMap(header, renames);
    PlanMapMeaning(header, renames);
    forall p | 0 <= p < |header| ensures plan[p] in EntrySet(m) {
      var l := plan[p].name;
      if header[p] in renames.Values {
        Tabstream.DistinctFirstIndex(header, p);
        assert m[l] == p;
      } else {
        assert l == header[p] && l !in renames;
      }
      assert plan[p] == Entry(l, m[l]);
    }
  }

  lemma InPlaceItemsCovered(header: Header, renames: map<Label, Label>, plan: seq<Entry>)
    requires InPlace(header, renames)
    requires plan == seq(|header|, p requires 0 <= p < |header| => Entry(InPlaceLabel(renames, header[p]), p))
    ensures forall x :: x in EntrySet(PlanMap(header, renames)) ==> x in plan
  {
    var m := PlanMap(header, renames);
    PlanMapMeaning(header, renames);
    forall x | x in EntrySet(m) ensures x in plan {
      var l :| l in m && x == Entry(l, m[l]);
      var q := m[l];
      if l in renames {
        assert header[q] == renames[l];
        assert InPlaceLabel(renames, header[q]) == l;
      } else {
        assert header[q] == l && l !in renames.Values;
      }
      assert plan[q] == x;
    }
  }

  /** The header of an in-place relabelling, and each column's source position. */
  lemma InPlaceHeader(renames: map<Label, Label>, order: seq<Label>, s: Stream)
    requires Enumerates(order, renames) && s.Tagged? && InPlace(s.header, renames)
    ensures var r := Renamed(renames, order, s);
            var m := PlanMap(s.header, renames);
      && r.Tagged? && |r.header| == |s.header|
      && forall p :: 0 <= p < |s.header| ==>
           r.header[p] == InPlaceLabel(renames, s.header[p]) && r.header[p] in m && m[r.header[p]] == p
  {
    InPlacePlan(s.header, renames);
    KnownIff(s.header, renames, order);
    RenamedTagged(renames, order, s);
    PlanItems(s.header, renames);
  }

  /** A row taken at positions `0, 1, ...` in order is a prefix of the input row. */
  lemma UnmovedRow(labels: Header, m: map<Label, nat>, row: Row, out: Row)
    requires forall p :: 0 <= p < |labels| ==> labels[p] in m && m[labels[p]] == p
    requires |out| == |labels|
    requires forall p :: 0 <= p < |labels| ==> m[labels[p]] < |row| && out[p] == row[m[labels[p]]]
    ensures |labels| <= |row| && out == row[..|labels|]
  {
    if 0 < |labels| {
      assert m[labels[|labels| - 1]] < |row|;
    }
  }

  /** The rows of an in-place relabelling: values unmoved, cut to the header's length. */
  lemma InPlaceRows(renames: map<Label, Label>, order: seq<Label>, s: Stream)
    requires Enumerates(order, renames) && s.Tagged? && InPlace(s.header, renames)
    ensures var r := Renamed(renames, order, s);
      && r.Tagged?
      && |r.rows| <= |s.rows|
      && (forall k :: 0 <= k < |r.rows| ==>
            |s.header| <= |s.rows[k]| && r.rows[k] == s.rows[k][..|s.header|])
      && (|r.rows| < |s.rows| ==> |s.rows[|r.rows|]| < |s.header| && r.failure == Some(IndexOutOfRange))
      && (|r.rows| == |s.rows| ==> r.failure == s.failure)
  {
    var h := s.header;
    var r := Renamed(renames, order, s);
    var m := PlanMap(h, renames);
    InPlaceHeader(renames, order, s);
    RenameRows(renames, order, s);
    forall k | 0 <= k < |r.rows| ensures |h| <= |s.rows[k]| && r.rows[k] == s.rows[k][..|h|] {
      UnmovedRow(r.header, m, s.rows[k], r.rows[k]);
    }
    if |r.rows| < |s.rows| {
      var l :| l in m && m[l] >= |s.rows[|r.rows|]|;
      PlanMapMeaning(h, renames);
    }
  }

  /** Relabelling in place (`test_in_place`, `test_swap_labels`,
      `test_rename_with_special_characters`): every column stays where it is,
      under the new label renamed from it or else its own; rows keep their
      values, cut to the header's length, and a row shorter than the header
      raises IndexError. */
  lemma RenameInPlace(renames: map<Label, Label>, order: seq<Label>, s: Stream)
    requires Enumerates(order, renames) && s.Tagged? && InPlace(s.header, renames)
    ensures var r := Renamed(renames, order, s);
      && r.Tagged? && |r.header| == |s.header|
      && (forall p :: 0 <= p < |s.header| ==>
            if s.header[p] in renames.Values
            then r.header[p] in renames && renames[r.header[p]] == s.header[p]
            else r.header[p] == s.header[p])
      && |r.rows| <= |s.rows|
      && (forall k :: 0 <= k < |r.rows| ==>
            |s.header| <= |s.rows[k]| && r.rows[k] == s.rows[k][..|s.header|])
      && (|r.rows| < |s.rows| ==> |s.rows[|r.rows|]| < |s.header| && r.failure == Some(IndexOutOfRange))
      && (|r.rows| == |s.rows| ==> r.failure == s.failure)
  {
    InPlaceHeader(renames, order, s);
    InPlaceRows(renames, order, s);
  }

  /** Four pairwise different labels. */
  predicate Different(a: Label, b: Label, c: Label, d: Label)
  {
    a != b && a != c && a != d && b != c && b != d && c != d
  }

  /** A map whose every key renames from the same label has that label as its only value. */
  lemma SingleSource(renames: map<Label, Label>, n: Label, v: Label)
    requires n in renames && forall k :: k in renames ==> renames[k] == v
    ensures renames.Values == {v}
  {
    assert renames[n] == v;
  }

  /** The row loop over a single row, for a plan of three entries. */
  lemma ThreeFields(x: Entry, y: Entry, z: Entry, rows: seq<Row>)
    requires |rows| == 1 && x.index < |rows[0]| && y.index < |rows[0]| && z.index < |rows[0]|
    ensures Drain(Tabstream.FieldsStep(Indices([x, y, z])), rows, None)
            == Tail([[rows[0][x.index], rows[0][y.index], rows[0][z.index]]], None)
    ensures Labels([x, y, z]) == [x.name, y.name, z.name]
  {
    var row := rows[0];
    var out := [row[x.index], row[y.index], row[z.index]];
    var indices := Indices([x, y, z]);
    assert indices == [x.index, y.index, z.index];
    FieldsForIs(indices, row, out);
    assert Tabstream.FieldsStep(indices)(row) == Ok(out);
    DrainUnique(Tabstream.FieldsStep(indices), rows, None, [out], None);
  }

  /** The run of `rename` on a single row, given a plan of three entries. */
  lemma OneRowRenamed(renames: map<Label, Label>, order: seq<Label>, s: Stream, x: Entry, y: Entry, z: Entry)
    requires Enumerates(order, renames) && s.Tagged? && Known(s.header, renames)
    requires Plan(s.header, renames) == [x, y, z] && |s.rows| == 1 && s.failure.None?
    requires x.index < |s.rows[0]| && y.index < |s.rows[0]| && z.index < |s.rows[0]|
    ensures Renamed(renames, order, s)
            == Tagged([x.name, y.name, z.name], [[s.rows[0][x.index], s.rows[0][y.index], s.rows[0][z.index]]], None)
  {
    ThreeFields(x, y, z, s.rows);
    RenamedByPlan(renames, order, s, [x, y, z], Tail([[s.rows[0][x.index], s.rows[0][y.index], s.rows[0][z.index]]], None));
  }

  /** A map with three keys has exactly the three items listed. */
  lemma ThreeItems(m: map<Label, nat>, x: Entry, y: Entry, z: Entry)
    requires m.Keys == {x.name, y.name, z.name}
    requires m[x.name] == x.index && m[y.name] == y.index && m[z.name] == z.index
    ensures forall e :: e in [x, y, z] <==> e in EntrySet(m)
  {
    forall e ensures e in [x, y, z] <==> e in EntrySet(m) {
      if e in EntrySet(m) {
        var l :| l in m && e == Entry(l, m[l]);
      }
      assert x == Entry(x.name, m[x.name]) && y == Entry(y.name, m[y.name]) && z == Entry(z.name, m[z.name]);
    }
  }

  // `test_overwrite_existing_column`, over any four different labels.

  lemma OverwriteKeys(a: Label, b: Label, c: Label, d: Label, h: Header, renames: map<Label, Label>)
    requires Different(a, b, c, d) && h == [a, b, c, d] && renames == map[b := a]
    ensures renames.Values == {a} && Known(h, renames)
    ensures PlanMap(h, renames).Keys == {b, c, d}
  {
    SingleSource(renames, b, a);
    assert h[0] == a;
    var m := PlanMap(h, renames);
    forall l ensures l in m <==> l in {b, c, d} {
      PlanKeyAt(h, renames, l);
      assert l in h <==> l == a || l == b || l == c || l == d;
    }
  }

  lemma OverwriteValues(a: Label, b: Label, c: Label, d: Label, h: Header, renames: map<Label, Label>)
    requires Different(a, b, c, d) && h == [a, b, c, d] && renames == map[b := a]
    requires renames.Values == {a} && Known(h, renames)
    requires PlanMap(h, renames).Keys == {b, c, d}
    ensures var m := PlanMap(h, renames);
            m[b] == 0 && m[c] == 2 && m[d] == 3
  {
    PlanMapMeaning(h, renames);
  }

  /** The plan of renaming `a` to `b` over the header `(a, b, c, d)`. */
  lemma OverwritePlan(a: Label, b: Label, c: Label, d: Label, h: Header, renames: map<Label, Label>)
    requires Different(a, b, c, d) && h == [a, b, c, d] && renames == map[b := a]
    ensures Known(h, renames)
    ensures Plan(h, renames) == [Entry(b, 0), Entry(c, 2), Entry(d, 3)]
  {
    OverwriteKeys(a, b, c, d, h, renames);
    OverwriteValues(a, b, c, d, h, renames);
    var plan := [Entry(b, 0), Entry(c, 2), Entry(d, 3)];
    ThreeItems(PlanMap(h, renames), plan[0], plan[1], plan[2]);
    PlanIs(h, renames, plan);
  }

  /** `test_overwrite_existing_column`: renaming `a` to the existing label `b`
      drops the old `b` column. */
  lemma RenameOverwrite(a: Label, b: Label, c: Label, d: Label,
                        renames: map<Label, Label>, order: seq<Label>, s: Stream)
    requires Different(a, b, c, d)
    requires renames == map[b := a] && Enumerates(order, renames)
    requires s == Tagged([a, b, c, d], [[Number(1), Number(2), Number(3), Number(4)]], None)
    ensures Renamed(renames, order, s) == Tagged([b, c, d], [[Number(1), Number(3), Number(4)]], None)
  {
    OverwritePlan(a, b, c, d, s.header, renames);
    OneRowRenamed(renames, order, s, Entry(b, 0), Entry(c, 2), Entry(d, 3));
  }

  // `test_swap_labels`, over any four different labels.

  lemma SwapInPlace(a: Label, b: Label, c: Label, d: Label, h: Header, renames: map<Label, Label>)
    requires Different(a, b, c, d) && h == [a, b, c, d] && renames == map[b := a, a := b]
    ensures renames.Values == {a, b}
    ensures InPlace(h, renames)
  {
    assert renames[b] == a && renames[a] == b;
    assert forall n :: n in renames ==> n == a || n == b;
  }

  /** Rows of the header's length come through an in-place relabelling whole. */
  lemma WholeRows(h: Header, rows: seq<Row>, out: seq<Row>)
    requires forall k :: 0 <= k < |rows| ==> |rows[k]| == |h|
    requires |out| <= |rows| && (|out| < |rows| ==> |rows[|out|]| < |h|)
    requires forall k :: 0 <= k < |out| ==> out[k] == rows[k][..|h|]
    ensures out == rows
  {
    forall k | 0 <= k < |out| ensures out[k] == rows[k] {
      assert rows[k][..|h|] == rows[k];
    }
  }

  /** The run an in-place relabelling promises, for the swap of `a` and `b`. */
  lemma SwapRun(a: Label, b: Label, c: Label, d: Label, renames: map<Label, Label>, s: Stream, r: Stream)
    requires Different(a, b, c, d)
    requires renames == map[b := a, a := b] && renames.Values == {a, b}
    requires s == Tagged([a, b, c, d], [[Number(1), Number(2), Number(3), Number(4)]], None)
    requires r.Tagged? && |r.header| == |s.header|
    requires forall p :: 0 <= p < |s.header| ==>
               if s.header[p] in renames.Values
               then r.header[p] in renames && renames[r.header[p]] == s.header[p]
               else r.header[p] == s.header[p]
    requires |r.rows| <= |s.rows|
    requires forall k :: 0 <= k < |r.rows| ==> |s.header| <= |s.rows[k]| && r.rows[k] == s.rows[k][..|s.header|]
    requires |r.rows| < |s.rows| ==> |s.rows[|r.rows|]| < |s.header|
    requires |r.rows| == |s.rows| ==> r.failure == s.failure
    ensures r == Tagged([b, a, c, d], [[Number(1), Number(2), Number(3), Number(4)]], None)
  {
    var h := s.header;
    assert r.header[0] in renames && renames[r.header[0]] == a;
    assert r.header[1] in renames && renames[r.header[1]] == b;
    assert h[2] !in renames.Values && h[3] !in renames.Values;
    assert r.header == [b, a, c, d];
    assert |s.rows[0]| == |h|;
    WholeRows(h, s.rows, r.rows);
  }

  /** `test_swap_labels`: swapping two labels keeps every column where it is. */
  lemma RenameSwap(a: Label, b: Label, c: Label, d: Label,
                   renames: map<Label, Label>, order: seq<Label>, s: Stream)
    requires Different(a, b, c, d)
    requires renames == map[b := a, a := b] && Enumerates(order, renames)
    requires s == Tagged([a, b, c, d], [[Number(1), Number(2), Number(3), Number(4)]], None)
    ensures Renamed(renames, order, s)
            == Tagged([b, a, c, d], [[Number(1), Number(2), Number(3), Number(4)]], None)
  {
    SwapInPlace(a, b, c, d, s.header, renames);
    RenameInPlace(renames, order, s);
    SwapRun(a, b, c, d, renames, s, Renamed(renames, order, s));
  }

  // `test_duplicate_under_another_name`, over any three different labels.

  lemma DuplicateKeys(a: Label, b: Label, d: Label, h: Header, renames: map<Label, Label>)
    requires a != b && a != d && b != d && h == [a, b] && renames == map[d := a, a := a]
    ensures renames.Values == {a} && Known(h, renames)
    ensures PlanMap(h, renames).Keys == {a, d, b}
  {
    SingleSource(renames, d, a);
    assert h[0] == a;
    var m := PlanMap(h, renames);
    forall l ensures l in m <==> l in {a, d, b} {
      PlanKeyAt(h, renames, l);
      assert l in h <==> l == a || l == b;
    }
  }

  lemma DuplicateValues(a: Label, b: Label, d: Label, h: Header, renames: map<Label, Label>)
    requires a != b && a != d && b != d && h == [a, b] && renames == map[d := a, a := a]
    requires renames.Values == {a} && Known(h, renames)
    requires PlanMap(h, renames).Keys == {a, d, b}
    ensures var m := PlanMap(h, renames);
            m[a] == 0 && m[d] == 0 && m[b] == 1
  {
    PlanMapMeaning(h, renames);
  }

  /** The plan of renaming `a` to both `d` and `a` over the header `(a, b)`. */
  lemma DuplicatePlan(a: Label, b: Label, d: Label, h: Header, renames: map<Label, Label>)
    requires a != b && a != d && b != d && h == [a, b] && renames == map[d := a, a := a]
    ensures Known(h, renames)
    ensures Plan(h, renames) == [Entry(a, 0), Entry(d, 0), Entry(b, 1)]
  {
    DuplicateKeys(a, b, d, h, renames);
    DuplicateValues(a, b, d, h, renames);
    var plan := [Entry(a, 0), Entry(d, 0), Entry(b, 1)];
    ThreeItems(PlanMap(h, renames), plan[0], plan[1], plan[2]);
    assert KeyLess(h, plan[0], plan[1]);
    PlanIs(h, renames, plan);
  }

  /** `test_duplicate_under_another_name`: `a` is kept and copied as `d`; at
      the shared position the original label comes first. */
  lemma RenameDuplicate(a: Label, b: Label, d: Label,
                        renames: map<Label, Label>, order: seq<Label>, s: Stream)
    requires a != b && a != d && b != d
    requires renames == map[d := a, a := a] && Enumerates(order, renames)
    requires s == Tagged([a, b], [[Number(1), Number(2)]], None)
    ensures Renamed(renames, order, s) == Tagged([a, d, b], [[Number(1), Number(1), Number(2)]], None)
  {
    DuplicatePlan(a, b, d, s.header, renames);
    OneRowRenamed(renames, order, s, Entry(a, 0), Entry(d, 0), Entry(b, 1));
  }
}
