/**
 * Rows and the column-name bookkeeping shared by both Table classes
 * (lico/core.py and the legacy lico/lico.py): the union of all row keys,
 * the header a table reports, and the order-preserving de-duplication
 * that `concat` performs with an OrderedDict.
 */
module Rows {

  /** One row: column name to text value. Key order never matters to the
      engine, because extra column names pass through a set. */
  type Row = map<string, string>

  /** The elements of a sequence, as a set. */
  function Elems(s: seq<string>): set<string>
  {
    set x | x in s
  }

  predicate Distinct(s: seq<string>)
  {
    forall i, j :: 0 <= i < j < |s| ==> s[i] != s[j]
  }

  /** `set().union(*[x.keys() for x in content])`: every key of every row. */
  function AllKeys(rows: seq<Row>): set<string>
  {
    if rows == [] then {} else AllKeys(rows[..|rows| - 1]) + rows[|rows| - 1].Keys
  }

  /** A name is among the keys exactly when some row has it. */
  lemma {:induction false} AllKeysMeaning(rows: seq<Row>, k: string)
    ensures k in AllKeys(rows) <==> exists i :: 0 <= i < |rows| && k in rows[i]
  {
    if rows != [] {
      var front := rows[..|rows| - 1];
      AllKeysMeaning(front, k);
      assert forall i :: 0 <= i < |front| ==> front[i] == rows[i];
    }
  }

  lemma {:induction false} AllKeysAppend(a: seq<Row>, b: seq<Row>)
    ensures AllKeys(a + b) == AllKeys(a) + AllKeys(b)
  {
    if b == [] {
      assert a + b == a;
    } else {
      var b' := b[..|b| - 1];
      AllKeysAppend(a, b');
      assert (a + b)[..|a + b| - 1] == a + b';
    }
  }

  /** The header `get_fieldnames` reports for a table with the given remembered
      order and rows: the remembered order first, then every other key that
      occurs in some row, each exactly once, in an unspecified order (Python
      lists the members of a set). */
  ghost predicate IsFieldnames(names: seq<string>, order: seq<string>, rows: seq<Row>)
  {
    && |order| <= |names|
    && names[..|order|] == order
    && Distinct(names[|order|..])
    && Elems(names[|order|..]) == AllKeys(rows) - Elems(order)
  }

  /** `list(s)` for a set: its members, each once, in some order. */
  method ListOfSet(s: set<string>) returns (xs: seq<string>)
    ensures Distinct(xs) && Elems(xs) == s
  {
    xs := [];
    var rest := s;
    while rest != {}
      invariant Distinct(xs)
      invariant Elems(xs) + rest == s
      invariant Elems(xs) !! rest
      decreases rest
    {
      var x :| x in rest;
      xs := xs + [x];
      rest := rest - {x};
    }
  }

  /** The first-occurrence de-duplication of a sequence of names: what
      `list(OrderedDict.fromkeys(names))` yields. */
  function Dedup(names: seq<string>): seq<string>
  {
    if names == [] then []
    else
      var d := Dedup(names[..|names| - 1]);
      if names[|names| - 1] in d then d else d + [names[|names| - 1]]
  }

  lemma {:induction false} DedupSound(names: seq<string>)
    ensures Distinct(Dedup(names))
    ensures Elems(Dedup(names)) == Elems(names)
  {
    if names != [] {
      var front := names[..|names| - 1];
      DedupSound(front);
      assert names == front + [names[|names| - 1]];
      assert Elems(names) == Elems(front) + {names[|names| - 1]};
    }
  }

  /** Names that already occur only once come out unchanged. */
  lemma {:induction false} DedupOfDistinct(names: seq<string>)
    requires Distinct(names)
    ensures Dedup(names) == names
  {
    if names != [] {
      var front := names[..|names| - 1];
      DedupOfDistinct(front);
      assert names[|names| - 1] !in front;
      assert names == front + [names[|names| - 1]];
    }
  }

  /** De-duplicating `a + b` keeps the de-duplication of `a` as its prefix:
      the first table's columns come first. */
  lemma {:induction false} DedupPrefix(a: seq<string>, b: seq<string>)
    ensures |Dedup(a)| <= |Dedup(a + b)|
    ensures Dedup(a + b)[..|Dedup(a)|] == Dedup(a)
  {
    if b != [] {
      var b' := b[..|b| - 1];
      DedupPrefix(a, b');
      assert (a + b)[..|a + b| - 1] == a + b';
    } else {
      assert a + b == a;
    }
  }

  /** The names of `b` that are new come after `a`'s: the tail of the
      de-duplication of `a + b` is exactly the names of `b` not in `a`. */
  lemma {:induction false} DedupTail(a: seq<string>, b: seq<string>)
    ensures |Dedup(a)| <= |Dedup(a + b)|
    ensures Elems(Dedup(a + b)[|Dedup(a)|..]) == Elems(b) - Elems(a)
  {
    DedupPrefix(a, b);
    DedupSound(a);
    DedupSound(a + b);
    var d, e := Dedup(a), Dedup(a + b);
    var t := e[|d|..];
    assert e == d + t;
    DistinctSplit(d, t);
    ElemsAppend(d, t);
    ElemsAppend(a, b);
  }

  lemma ElemsAppend(x: seq<string>, y: seq<string>)
    ensures Elems(x + y) == Elems(x) + Elems(y)
  {
    assert forall v :: v in x + y <==> v in x || v in y;
  }

  lemma DistinctSplit(x: seq<string>, y: seq<string>)
    requires Distinct(x + y)
    ensures Elems(x) !! Elems(y)
  {
    forall i, j | 0 <= i < |x| && 0 <= j < |y| ensures x[i] != y[j] {
      assert (x + y)[i] == x[i] && (x + y)[|x| + j] == y[j];
    }
  }

  /** The OrderedDict loop of `concat`, keeping each name the first time it is seen. */
  method UniqueInOrder(names: seq<string>) returns (unique: seq<string>)
    ensures unique == Dedup(names)
  {
    unique := [];
    var seen: set<string> := {};
    var i := 0;
    while i < |names|
      invariant 0 <= i <= |names|
      invariant unique == Dedup(names[..i])
      invariant seen == Elems(unique)
    {
      assert names[..i + 1][..i] == names[..i];
      if names[i] !in seen {
        unique := unique + [names[i]];
        seen := seen + {names[i]};
      }
      i := i + 1;
    }
    assert names[..|names|] == names;
  }

  lemma {:induction false} DistinctCard(s: seq<string>)
    requires Distinct(s)
    ensures |Elems(s)| == |s|
  {
    if s != [] {
      var front := s[..|s| - 1];
      DistinctCard(front);
      assert s == front + [s[|s| - 1]];
      assert Elems(s) == Elems(front) + {s[|s| - 1]};
      assert s[|s| - 1] !in Elems(front);
    }
  }

  /** The header is determined up to the order of its extra names: any two
      headers of one table have the same length and the same names. */
  lemma FieldnamesUpToOrder(n1: seq<string>, n2: seq<string>, order: seq<string>, rows: seq<Row>)
    requires IsFieldnames(n1, order, rows) && IsFieldnames(n2, order, rows)
    ensures |n1| == |n2| && Elems(n1) == Elems(n2)
  {
    FieldnamesSplit(n1, order, rows);
    FieldnamesSplit(n2, order, rows);
  }

  /** A header is the remembered order followed by the extra names, one each. */
  lemma FieldnamesSplit(names: seq<string>, order: seq<string>, rows: seq<Row>)
    requires IsFieldnames(names, order, rows)
    ensures |names| == |order| + |AllKeys(rows) - Elems(order)|
    ensures Elems(names) == Elems(order) + (AllKeys(rows) - Elems(order))
  {
    var tail := names[|order|..];
    DistinctCard(tail);
    assert names == order + tail;
    ElemsAppend(order, tail);
  }

  /** A table whose rows use only remembered columns reports exactly the
      remembered order. */
  lemma FieldnamesWithinOrder(names: seq<string>, order: seq<string>, rows: seq<Row>)
    requires AllKeys(rows) <= Elems(order)
    requires IsFieldnames(names, order, rows)
    ensures names == order
  {
    var tail := names[|order|..];
    DistinctCard(tail);
    assert names == order + tail;
  }

  /** A table whose rows add exactly one column to the remembered order
      reports the order followed by that column. */
  lemma FieldnamesOneExtra(names: seq<string>, order: seq<string>, rows: seq<Row>, extra: string)
    requires AllKeys(rows) == Elems(order) + {extra} && extra !in order
    requires IsFieldnames(names, order, rows)
    ensures names == order + [extra]
  {
    var tail := names[|order|..];
    assert extra !in Elems(order);
    assert (Elems(order) + {extra}) - Elems(order) == {extra};
    DistinctCard(tail);
    assert |tail| == 1 && tail[0] in Elems(tail);
    assert names == order + [extra];
  }
}
