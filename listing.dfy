/** What a `SELECT` over one table may return: every row exactly once, in an order that
    respects the `ORDER BY` clause (rows that tie, or a query without `ORDER BY`, come in
    an order the database is free to choose), cut by `OFFSET` and `LIMIT`. */
module Listing {
  import opened Wrappers

  /** A key of a non-empty table. */
  lemma PickKey<T>(table: map<int, T>) returns (k: int)
    requires table != map[]
    ensures k in table
  {
    assert (forall j :: j !in table) ==> table == map[];
    k :| k in table;
  }

  /** `ks` lists every key of `table` exactly once. */
  predicate Enumerates<T>(ks: seq<int>, table: map<int, T>)
  {
    && (forall i :: 0 <= i < |ks| ==> ks[i] in table)
    && (forall k :: k in table ==> k in ks)
    && (forall i, j :: 0 <= i < j < |ks| ==> ks[i] != ks[j])
  }

  function RowsOf<T>(ks: seq<int>, table: map<int, T>): (rows: seq<T>)
    requires forall i :: 0 <= i < |ks| ==> ks[i] in table
    ensures |rows| == |ks|
    ensures forall i :: 0 <= i < |ks| ==> rows[i] == table[ks[i]]
  {
    seq(|ks|, i requires 0 <= i < |ks| => table[ks[i]])
  }

  // ---------------------------------------------------------------------------
  // ORDER BY: rows compare by a key, lexicographically, ascending or descending
  // ---------------------------------------------------------------------------

  predicate SeqLe(a: seq<int>, b: seq<int>)
  {
    if a == [] then true
    else if b == [] then false
    else if a[0] != b[0] then a[0] < b[0]
    else SeqLe(a[1..], b[1..])
  }

  lemma {:induction false} SeqLeTotal(a: seq<int>, b: seq<int>)
    ensures SeqLe(a, b) || SeqLe(b, a)
  {
    if a != [] && b != [] && a[0] == b[0] {
      SeqLeTotal(a[1..], b[1..]);
    }
  }

  lemma {:induction false} SeqLeTransitive(a: seq<int>, b: seq<int>, c: seq<int>)
    requires SeqLe(a, b) && SeqLe(b, c)
    ensures SeqLe(a, c)
  {
    if a != [] && b != [] && c != [] && a[0] == b[0] == c[0] {
      SeqLeTransitive(a[1..], b[1..], c[1..]);
    }
  }

  lemma SeqLeSingleton(a: int, b: int)
    ensures SeqLe([a], [b]) <==> a <= b
  {
    assert [a][1..] == [] && [b][1..] == [];
  }

  /** `x` may come before `y` under `ORDER BY key ASC` (or `DESC` when `desc`). */
  predicate Before<T>(key: T -> seq<int>, desc: bool, x: T, y: T)
  {
    if desc then SeqLe(key(y), key(x)) else SeqLe(key(x), key(y))
  }

  lemma BeforeTotal<T>(key: T -> seq<int>, desc: bool, x: T, y: T)
    ensures Before(key, desc, x, y) || Before(key, desc, y, x)
  {
    SeqLeTotal(key(x), key(y));
  }

  lemma BeforeTransitive<T>(key: T -> seq<int>, desc: bool, x: T, y: T, z: T)
    requires Before(key, desc, x, y) && Before(key, desc, y, z)
    ensures Before(key, desc, x, z)
  {
    if desc {
      SeqLeTransitive(key(z), key(y), key(x));
    } else {
      SeqLeTransitive(key(x), key(y), key(z));
    }
  }

  predicate Ordered<T>(rows: seq<T>, key: T -> seq<int>, desc: bool)
  {
    forall i, j :: 0 <= i < j < |rows| ==> Before(key, desc, rows[i], rows[j])
  }

  /** `rows` is one answer the database may give to `SELECT * FROM table ORDER BY key`. */
  ghost predicate IsListing<T>(rows: seq<T>, table: map<int, T>, key: T -> seq<int>, desc: bool)
  {
    exists ks :: Enumerates(ks, table) && rows == RowsOf(ks, table) && Ordered(rows, key, desc)
  }

  /** What every listing holds: the table's rows, each once, and nothing else. */
  lemma ListingRows<T>(rows: seq<T>, table: map<int, T>, key: T -> seq<int>, desc: bool)
    requires IsListing(rows, table, key, desc)
    ensures |rows| == |table|
    ensures forall i :: 0 <= i < |rows| ==> rows[i] in table.Values
    ensures forall k :: k in table ==> table[k] in rows
  {
    var ks :| Enumerates(ks, table) && rows == RowsOf(ks, table) && Ordered(rows, key, desc);
    DistinctCardinality(ks, table);
    forall k | k in table ensures table[k] in rows {
      var i :| 0 <= i < |ks| && ks[i] == k;
      assert rows[i] == table[k];
    }
  }

  lemma {:induction false} DistinctCardinality<T>(ks: seq<int>, table: map<int, T>)
    requires Enumerates(ks, table)
    ensures |ks| == |table|
    decreases |ks|
  {
    if ks == [] {
      assert forall k :: k in table ==> k in ks;
      assert table.Keys == {};
    } else {
      var k := ks[|ks| - 1];
      var rest := table - {k};
      forall i | 0 <= i < |ks| - 1 ensures ks[i] in rest {
        assert ks[i] != ks[|ks| - 1];
      }
      forall j | j in rest ensures j in ks[..|ks| - 1] {
        var i :| 0 <= i < |ks| && ks[i] == j;
      }
      DistinctCardinality(ks[..|ks| - 1], rest);
      assert table.Keys == rest.Keys + {k};
    }
  }

  /** A non-empty table has a row that may come first. */
  lemma {:induction false} FirstExists<T>(table: map<int, T>, key: T -> seq<int>, desc: bool)
    requires table != map[]
    ensures exists m :: m in table && forall k :: k in table ==> Before(key, desc, table[m], table[k])
    decreases |table|
  {
    var k := PickKey(table);
    var rest := table - {k};
    SeqLeTotal(key(table[k]), key(table[k]));
    if rest == map[] {
      assert table.Keys == rest.Keys + {k};
    } else {
      FirstExists(rest, key, desc);
      var m' :| m' in rest && forall j :: j in rest ==> Before(key, desc, rest[m'], rest[j]);
      assert rest[m'] == table[m'];
      if Before(key, desc, table[k], table[m']) {
        forall j | j in table ensures Before(key, desc, table[k], table[j]) {
          if j != k {
            assert j in rest && rest[j] == table[j];
            BeforeTransitive(key, desc, table[k], table[m'], table[j]);
          }
        }
      } else {
        BeforeTotal(key, desc, table[k], table[m']);
        forall j | j in table ensures Before(key, desc, table[m'], table[j]) {
          if j != k {
            assert j in rest && rest[j] == table[j];
          }
        }
      }
    }
  }

  /** Every table has an ordered listing, so a query always has an answer. */
  lemma {:induction false} ListingExists<T>(table: map<int, T>, key: T -> seq<int>, desc: bool)
    ensures exists rows :: IsListing(rows, table, key, desc)
    decreases |table|
  {
    if table == map[] {
      assert Enumerates([], table);
      assert IsListing([], table, key, desc);
    } else {
      FirstExists(table, key, desc);
      var m :| m in table && forall k :: k in table ==> Before(key, desc, table[m], table[k]);
      var rest := table - {m};
      ListingExists(rest, key, desc);
      var rows' :| IsListing(rows', rest, key, desc);
      var ks' :| Enumerates(ks', rest) && rows' == RowsOf(ks', rest) && Ordered(rows', key, desc);
      PrependFirst(table, m, ks', key, desc);
    }
  }

  /** Putting a row that may come first in front of a listing of the other rows gives a
      listing of the whole table. */
  lemma PrependFirst<T>(table: map<int, T>, m: int, ks': seq<int>, key: T -> seq<int>, desc: bool)
    requires m in table && forall k :: k in table ==> Before(key, desc, table[m], table[k])
    requires Enumerates(ks', table - {m}) && Ordered(RowsOf(ks', table - {m}), key, desc)
    ensures IsListing(RowsOf([m] + ks', table), table, key, desc)
  {
    EnumeratesCons(table, m, ks');
    var rows' := RowsOf(ks', table - {m});
    var rows := RowsOf([m] + ks', table);
    assert rows == [table[m]] + rows';
    forall i | 0 <= i < |rows'| ensures Before(key, desc, table[m], rows'[i]) {
      var k := ks'[i];
      assert k in table - {m};
      assert k in table && (table - {m})[k] == table[k];
      assert rows'[i] == table[k];
      assert Before(key, desc, table[m], table[k]);
    }
    OrderedCons(table[m], rows', key, desc);
  }

  lemma EnumeratesCons<T>(table: map<int, T>, m: int, ks': seq<int>)
    requires m in table && Enumerates(ks', table - {m})
    ensures Enumerates([m] + ks', table)
  {
    var rest := table - {m};
    var ks := [m] + ks';
    forall j | j in table ensures j in ks {
      if j != m {
        assert j in rest;
      }
    }
    forall i, j | 0 <= i < j < |ks| ensures ks[i] != ks[j] {
      if i == 0 {
        assert ks[j] == ks'[j - 1] && ks'[j - 1] in rest;
      } else {
        assert ks[i] == ks'[i - 1] && ks[j] == ks'[j - 1];
      }
    }
  }

  lemma OrderedCons<T>(x: T, rows': seq<T>, key: T -> seq<int>, desc: bool)
    requires forall i :: 0 <= i < |rows'| ==> Before(key, desc, x, rows'[i])
    requires Ordered(rows', key, desc)
    ensures Ordered([x] + rows', key, desc)
  {
    var rows := [x] + rows';
    forall i, j | 0 <= i < j < |rows| ensures Before(key, desc, rows[i], rows[j]) {
      if i == 0 {
        assert rows[j] == rows'[j - 1];
      } else {
        assert rows[i] == rows'[i - 1] && rows[j] == rows'[j - 1];
      }
    }
  }

  /** `SELECT * FROM table ORDER BY key`: the database answers with one of the listings the
      ordering allows; which one (among rows that tie) is its own choice. */
  method Select<T>(table: map<int, T>, key: T -> seq<int>, desc: bool) returns (rows: seq<T>)
    ensures IsListing(rows, table, key, desc)
    ensures |rows| == |table|
  {
    ListingExists(table, key, desc);
    ghost var rows0 :| IsListing(rows0, table, key, desc);
    ghost var ks0 :| Enumerates(ks0, table) && rows0 == RowsOf(ks0, table) && Ordered(rows0, key, desc);
    var ks :| Enumerates(ks, table) && Ordered(RowsOf(ks, table), key, desc);
    rows := RowsOf(ks, table);
    ListingRows(rows, table, key, desc);
  }

  /** `OFFSET offset LIMIT limit` applied to `rows`. */
  function Window<T>(rows: seq<T>, offset: nat, limit: nat): (w: seq<T>)
    ensures |w| <= limit
    ensures |w| == if offset >= |rows| then 0 else if limit < |rows| - offset then limit else |rows| - offset
    ensures forall i :: 0 <= i < |w| ==> w[i] == rows[offset + i]
  {
    if offset >= |rows| then []
    else rows[offset .. if offset + limit < |rows| then offset + limit else |rows|]
  }

  /** A window of an ordered listing is itself ordered. */
  lemma WindowOrdered<T>(rows: seq<T>, offset: nat, limit: nat, key: T -> seq<int>, desc: bool)
    requires Ordered(rows, key, desc)
    ensures Ordered(Window(rows, offset, limit), key, desc)
  {
    var w := Window(rows, offset, limit);
    forall i, j | 0 <= i < j < |w| ensures Before(key, desc, w[i], w[j]) {
      assert w[i] == rows[offset + i] && w[j] == rows[offset + j];
    }
  }

  /** `OFFSET offset LIMIT limit` sent to the database: a negative value is refused,
      otherwise the window of one of the ordered listings comes back. */
  method SelectPage<T>(table: map<int, T>, key: T -> seq<int>, desc: bool, offset: int, limit: int)
    returns (r: Outcome<seq<T>>)
    ensures r.Raises? <==> offset < 0 || limit < 0
    ensures r.Raises? ==> r.exc == InvalidLimit
    ensures r.Returns? ==> |r.value| <= limit && Ordered(r.value, key, desc)
    ensures r.Returns? ==> exists rows :: IsListing(rows, table, key, desc) && r.value == Window(rows, offset, limit)
  {
    if offset < 0 || limit < 0 {
      return Raises(InvalidLimit);
    }
    var rows := Select(table, key, desc);
    ghost var ks :| Enumerates(ks, table) && rows == RowsOf(ks, table) && Ordered(rows, key, desc);
    WindowOrdered(rows, offset, limit, key, desc);
    r := Returns(Window(rows, offset, limit));
  }

  // ---------------------------------------------------------------------------
  // Lookups by primary key
  // ---------------------------------------------------------------------------

  /** `.one()` on a lookup by primary key: the row, or `NoResultFound` when there is none. */
  function One<T>(table: map<int, T>, id: int): (r: Outcome<T>)
    ensures r.Returns? <==> id in table
    ensures r.Returns? ==> r.value == table[id]
    ensures r.Raises? ==> r.exc == NoResultFound
  {
    if id in table then Returns(table[id]) else Raises(NoResultFound)
  }

  /** `.scalar_one_or_none()` / `.one_or_none()` on a lookup by primary key. */
  function OneOrNone<T>(table: map<int, T>, id: int): (r: Option<T>)
    ensures r.Some? <==> id in table
    ensures r.Some? ==> r.value == table[id]
  {
    if id in table then Some(table[id]) else None
  }

  // ---------------------------------------------------------------------------
  // Lookups by a filter
  // ---------------------------------------------------------------------------

  /** A set with exactly one element is that element's singleton. */
  lemma SingletonOf(ids: set<int>, k: int)
    requires |ids| == 1 && k in ids
    ensures ids == {k}
  {
    var rest := ids - {k};
    assert |rest| == 0;
    assert (forall j :: j !in rest) ==> rest == {};
    if j :| j in rest {
      assert false;
    }
  }

  /** `.scalar_one_or_none()` on a query whose matching keys are `ids`: nothing for no match,
      the row for exactly one match, and `MultipleResultsFound` for two or more. */
  method OneOrNoneWhere<T>(table: map<int, T>, ids: set<int>) returns (r: Outcome<Option<T>>)
    requires ids <= table.Keys
    ensures r.Raises? <==> |ids| >= 2
    ensures r.Raises? ==> r.exc == MultipleResultsFound
    ensures r == Returns(None) <==> ids == {}
    ensures r.Returns? && r.value.Some? ==> exists k :: ids == {k} && r.value.value == table[k]
  {
    if |ids| >= 2 {
      return Raises(MultipleResultsFound);
    }
    if ids == {} {
      return Returns(None);
    }
    assert (forall j :: j !in ids) ==> ids == {};
    var k :| k in ids;
    SingletonOf(ids, k);
    return Returns(Some(table[k]));
  }
}
