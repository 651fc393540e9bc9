/** The order `rename` sorts its plan by: Python's comparison of the tuples
    `(index, label not in header, label)`, and `sorted` over it. */
module Ordering {
  import opened Streams

  /** A `(label, index)` item of the rename plan. */
  datatype Entry = Entry(name: Label, index: nat)

  /** Python 2's order on unicode strings: lexicographic by code point, a
      proper prefix before its extensions. */
  predicate StrLess(a: string, b: string)
    decreases |a|
  {
    if a == [] then b != []
    else if b == [] then false
    else if a[0] != b[0] then a[0] < b[0]
    else StrLess(a[1..], b[1..])
  }

  lemma {:induction false} StrLessIrreflexive(a: string)
    ensures !StrLess(a, a)
  {
    if a != [] {
      StrLessIrreflexive(a[1..]);
    }
  }

  lemma {:induction false} StrLessTransitive(a: string, b: string, c: string)
    requires StrLess(a, b) && StrLess(b, c)
    ensures StrLess(a, c)
    decreases |a|
  {
    if a != [] && a[0] == b[0] && b[0] == c[0] {
      StrLessTransitive(a[1..], b[1..], c[1..]);
    }
  }

  lemma {:induction false} StrLessTotal(a: string, b: string)
    requires a != b
    ensures StrLess(a, b) || StrLess(b, a)
    decreases |a|
  {
    if a != [] && b != [] && a[0] == b[0] {
      assert a == [a[0]] + a[1..] && b == [b[0]] + b[1..];
      StrLessTotal(a[1..], b[1..]);
    }
  }

  /** `sort_key(x) < sort_key(y)`: by index; at equal index a label of the
      original header before a new one; then by label. */
  predicate KeyLess(header: Header, x: Entry, y: Entry)
  {
    || x.index < y.index
    || (x.index == y.index && x.name in header && y.name !in header)
    || (x.index == y.index && (x.name in header <==> y.name in header) && StrLess(x.name, y.name))
  }

  lemma KeyLessIrreflexive(header: Header, x: Entry)
    ensures !KeyLess(header, x, x)
  {
    StrLessIrreflexive(x.name);
  }

  lemma KeyLessTransitive(header: Header, x: Entry, y: Entry, z: Entry)
    requires KeyLess(header, x, y) && KeyLess(header, y, z)
    ensures KeyLess(header, x, z)
  {
    if x.index == y.index == z.index && (x.name in header <==> y.name in header)
       && (y.name in header <==> z.name in header) {
      StrLessTransitive(x.name, y.name, z.name);
    }
  }

  /** The key order is total: distinct items always compare. */
  lemma KeyLessTotal(header: Header, x: Entry, y: Entry)
    requires x != y
    ensures KeyLess(header, x, y) || KeyLess(header, y, x)
  {
    if x.name != y.name {
      StrLessTotal(x.name, y.name);
    }
  }

  /** No item is preceded by a larger one. */
  ghost predicate Ascending(header: Header, es: seq<Entry>)
  {
    forall i, j :: 0 <= i < j < |es| ==> !KeyLess(header, es[j], es[i])
  }

  /** Inserts `e` before the first item that is not smaller than it. */
  function Insert(header: Header, e: Entry, es: seq<Entry>): (r: seq<Entry>)
    ensures multiset(r) == multiset(es) + multiset{e}
  {
    if es == [] then [e]
    else if KeyLess(header, es[0], e) then
      assert es == [es[0]] + es[1..];
      [es[0]] + Insert(header, e, es[1..])
    else [e] + es
  }

  lemma {:induction false} InsertAscending(header: Header, e: Entry, es: seq<Entry>)
    requires Ascending(header, es)
    ensures Ascending(header, Insert(header, e, es))
  {
    var r := Insert(header, e, es);
    if es == [] {
    } else if KeyLess(header, es[0], e) {
      var tail := Insert(header, e, es[1..]);
      InsertAscending(header, e, es[1..]);
      assert r == [es[0]] + tail;
      forall j | 1 <= j < |r| ensures !KeyLess(header, r[j], r[0]) {
        var x := tail[j - 1];
        assert x in multiset(tail);
        if x == e {
          KeyLessIrreflexive(header, e);
          if KeyLess(header, e, es[0]) {
            KeyLessTransitive(header, e, es[0], e);
          }
        } else {
          assert x in multiset(es[1..]);
          var k :| 0 <= k < |es[1..]| && es[1..][k] == x;
          assert es[k + 1] == x;
        }
      }
    } else {
      forall j | 0 <= j < |es| ensures !KeyLess(header, es[j], e) {
        if KeyLess(header, es[j], e) {
          if es[j] != es[0] {
            KeyLessTotal(header, es[j], es[0]);
            KeyLessTransitive(header, es[0], es[j], e);
          }
        }
      }
    }
  }

  /** `sorted(es, key=sort_key)`, as insertion sort. */
  function Sort(header: Header, es: seq<Entry>): (r: seq<Entry>)
    ensures multiset(r) == multiset(es)
    ensures Ascending(header, r)
  {
    if es == [] then []
    else
      var rest := Sort(header, es[1..]);
      InsertAscending(header, es[0], rest);
      assert es == [es[0]] + es[1..];
      Insert(header, es[0], rest)
  }

  /** Dropping the first item keeps a sequence ascending. */
  lemma AscendingTail(header: Header, es: seq<Entry>)
    requires Ascending(header, es) && es != []
    ensures Ascending(header, es[1..])
  {
    forall i, j | 0 <= i < j < |es[1..]| ensures !KeyLess(header, es[1..][j], es[1..][i]) {
      assert es[1..][j] == es[j + 1] && es[1..][i] == es[i + 1];
    }
  }

  /** Two ascending arrangements of one collection start with the same item. */
  lemma AscendingFirst(header: Header, a: seq<Entry>, b: seq<Entry>)
    requires Ascending(header, a) && Ascending(header, b)
    requires multiset(a) == multiset(b) && a != []
    ensures b != [] && a[0] == b[0]
  {
    assert a[0] in multiset(b);
    assert b != [];
    assert b[0] in multiset(a);
    var i :| 0 <= i < |a| && a[i] == b[0];
    var j :| 0 <= j < |b| && b[j] == a[0];
    if a[0] != b[0] {
      KeyLessTotal(header, a[0], b[0]);
    }
  }

  /** There is one ascending arrangement of a collection of items: the result of
      sorting does not depend on the order the items came in. */
  lemma {:induction false} AscendingUnique(header: Header, a: seq<Entry>, b: seq<Entry>)
    requires Ascending(header, a) && Ascending(header, b)
    requires multiset(a) == multiset(b)
    ensures a == b
  {
    if a == [] {
      assert |multiset(b)| == 0;
    } else {
      AscendingFirst(header, a, b);
      assert a == [a[0]] + a[1..] && b == [b[0]] + b[1..];
      assert multiset(a[1..]) == multiset(a) - multiset{a[0]};
      assert multiset(b[1..]) == multiset(b) - multiset{b[0]};
      AscendingTail(header, a);
      AscendingTail(header, b);
      AscendingUnique(header, a[1..], b[1..]);
    }
  }

  /** Items that are pairwise distinct sort strictly: each is smaller than every later one. */
  lemma AscendingStrict(header: Header, es: seq<Entry>)
    requires Ascending(header, es)
    requires forall i, j :: 0 <= i < j < |es| ==> es[i] != es[j]
    ensures forall i, j :: 0 <= i < j < |es| ==> KeyLess(header, es[i], es[j])
  {
    forall i, j | 0 <= i < j < |es| ensures KeyLess(header, es[i], es[j]) {
      KeyLessTotal(header, es[i], es[j]);
    }
  }
}
