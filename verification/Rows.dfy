/** The rows of one resource as the executor offers them: put-if-absent and paged queries; and
    the loops over query results that the repository and the usage provider share. */
module Rows {
  import opened Decimals
  import opened Sorting

  datatype Page<T> = Page(items: seq<T>, cursor: Option<nat>)

  /** One page of the rows that match a query; a missing cursor starts at the front. */
  function QueryPage<T>(matches: seq<T>, cursor: Option<nat>, limit: nat): Page<T> {
    var offset := if cursor.None? then 0 else cursor.value;
    var from := Min(offset, |matches|);
    var end := Min(offset + limit, |matches|);
    Page(matches[from..end], if offset + (end - from) < |matches| then Some(offset + (end - from)) else None)
  }

  /** _scan and the aggregate loop of fetch: extend a list and follow the cursor.  The loop
      ends, and whatever the page size it returns what one unpaged query would. */
  method Scan<T>(matches: seq<T>, limit: nat) returns (items: seq<T>)
    requires limit >= 1
    ensures items == matches
  {
    items := [];
    var cursor: Option<nat> := None;
    var more := true;
    while more
      invariant items <= matches
      invariant more ==> |items| == if cursor.None? then 0 else cursor.value
      invariant more && cursor.Some? ==> |items| < |matches|
      invariant !more ==> items == matches
      decreases more, |matches| - |items|
    {
      var result := QueryPage(matches, cursor, limit);
      items := items + result.items;
      cursor := result.cursor;
      more := cursor.Some?;
    }
  }

  function Select<T(!new)>(rows: seq<T>, p: T -> bool): (s: seq<T>)
    ensures forall x :: x in s <==> x in rows && p(x)
    ensures |s| <= |rows|
  {
    if rows == [] then []
    else (if p(rows[0]) then [rows[0]] else []) + Select(rows[1..], p)
  }

  // ---- rows by identity ----

  /** The rows as a map from identity to content. */
  function Indexed<T, K>(rows: seq<T>, id: T -> K): (s: map<K, T>)
    ensures forall k <- s :: s[k] in rows && id(s[k]) == k
    ensures forall row <- rows :: id(row) in s
  {
    if rows == [] then map[]
    else Indexed(rows[..|rows| - 1], id)[id(rows[|rows| - 1]) := rows[|rows| - 1]]
  }

  /** A row with its own identity is the one that is found under it. */
  lemma RowsAreStored<T, K>(rows: seq<T>, id: T -> K)
    requires DistinctBy(id, rows)
    ensures forall row <- rows :: Indexed(rows, id)[id(row)] == row
  {
    forall row | row in rows ensures Indexed(rows, id)[id(row)] == row {
      var i :| 0 <= i < |rows| && rows[i] == row;
      var j :| 0 <= j < |rows| && rows[j] == Indexed(rows, id)[id(row)];
    }
  }

  /** The executor's put with mode if_absent; `stored` is false for the ConflictError. */
  method InsertRow<T, K(==)>(rows: seq<T>, id: T -> K, row: T) returns (after: seq<T>, stored: bool)
    requires DistinctBy(id, rows)
    ensures DistinctBy(id, after)
    ensures stored <==> id(row) !in Indexed(rows, id)
    ensures Indexed(after, id) == if stored then Indexed(rows, id)[id(row) := row] else Indexed(rows, id)
  {
    stored := true;
    for i := 0 to |rows|
      invariant stored && forall j :: 0 <= j < i ==> id(rows[j]) != id(row)
    {
      if id(rows[i]) == id(row) { return rows, false; }
    }
    after := rows + [row];
    assert after[..|after| - 1] == rows;
  }

  /** The executor's get by identity. */
  method FindRow<T, K(==)>(rows: seq<T>, id: T -> K, k: K) returns (r: Option<T>)
    requires DistinctBy(id, rows)
    ensures r == if k in Indexed(rows, id) then Some(Indexed(rows, id)[k]) else None
  {
    RowsAreStored(rows, id);
    for i := 0 to |rows|
      invariant forall j :: 0 <= j < i ==> id(rows[j]) != k
    {
      if id(rows[i]) == k {
        assert rows[i] in rows;
        return Some(rows[i]);
      }
    }
    return None;
  }

  /** An item with the highest revision. */
  method Highest<T(!new)>(items: seq<T>, revision: T -> nat) returns (best: T)
    requires items != []
    ensures best in items && forall x <- items :: revision(x) <= revision(best)
  {
    best := items[0];
    for i := 1 to |items|
      invariant best in items && forall j :: 0 <= j < i ==> revision(items[j]) <= revision(best)
    {
      if revision(items[i]) > revision(best) { best := items[i]; }
    }
  }

  // ---- the highest revision per key ----

  ghost predicate DistinctBy<T, K>(key: T -> K, s: seq<T>) {
    forall i, j :: 0 <= i < j < |s| ==> key(s[i]) != key(s[j])
  }

  /** `values` holds, once for every key that occurs in `items`, an item of that key with the
      highest revision. */
  ghost predicate Newest<T(!new), K>(items: seq<T>, key: T -> K, revision: T -> nat, values: seq<T>) {
    && DistinctBy(key, values)
    && (forall v <- values :: v in items && forall x <- items :: key(x) == key(v) ==> revision(x) <= revision(v))
    && (forall x <- items :: exists v :: v in values && key(v) == key(x))
  }

  /** `keys` lists the keys of a dictionary once each, in the order of insertion, and the
      dictionary holds an item of each with the highest revision. */
  ghost predicate Table<T(!new), K(!new)>(items: seq<T>, key: T -> K, revision: T -> nat,
                                          keys: seq<K>, latest: map<K, T>)
  {
    && (forall i, j :: 0 <= i < j < |keys| ==> keys[i] != keys[j])
    && (forall k :: k in keys <==> k in latest)
    && (forall k <- latest :: latest[k] in items && key(latest[k]) == k)
    && (forall x <- items :: key(x) in latest && revision(x) <= revision(latest[key(x)]))
  }

  /** The loop over a `latest` dictionary that the repository and the usage provider share. */
  method LatestPerKey<T(!new), K(==, !new)>(items: seq<T>, key: T -> K, revision: T -> nat)
    returns (values: seq<T>)
    ensures Newest(items, key, revision, values)
  {
    var latest: map<K, T> := map[];
    var keys: seq<K> := [];
    for i := 0 to |items|
      invariant Table(items[..i], key, revision, keys, latest)
    {
      var item := items[i];
      assert items[..i + 1] == items[..i] + [item];
      if key(item) !in latest {
        keys := keys + [key(item)];
        latest := latest[key(item) := item];
      } else if revision(item) > revision(latest[key(item)]) {
        latest := latest[key(item) := item];
      }
    }
    assert items[..|items|] == items;
    values := seq(|keys|, i requires 0 <= i < |keys| => latest[keys[i]]);
    forall x | x in items ensures exists v :: v in values && key(v) == key(x) {
      var i :| 0 <= i < |keys| && keys[i] == key(x);
      assert values[i] in values;
    }
  }

  lemma {:induction false} OccursOnce<T(!new), K>(s: seq<T>, key: T -> K, x: T)
    requires DistinctBy(key, s)
    ensures multiset(s)[x] <= 1
  {
    if s != [] {
      assert s == [s[0]] + s[1..];
      assert DistinctBy(key, s[1..]);
      OccursOnce(s[1..], key, x);
      if s[0] == x { assert forall j :: 0 <= j < |s[1..]| ==> s[1..][j] != x; }
    }
  }

  /** Selecting and reordering keep keys distinct. */
  lemma {:induction false} SelectDistinct<T(!new), K>(key: T -> K, s: seq<T>, p: T -> bool)
    requires DistinctBy(key, s)
    ensures DistinctBy(key, Select(s, p))
  {
    if s != [] {
      assert DistinctBy(key, s[1..]);
      SelectDistinct(key, s[1..], p);
      var rest := Select(s[1..], p);
      forall j | 0 <= j < |rest| ensures key(rest[j]) != key(s[0]) {
        assert rest[j] in s[1..];
        var i :| 0 <= i < |s[1..]| && s[1..][i] == rest[j];
        assert s[i + 1] == rest[j];
      }
      assert Select(s, p) == (if p(s[0]) then [s[0]] + rest else rest);
    }
  }

  lemma PermutedDistinct<T(!new), K>(key: T -> K, s: seq<T>, t: seq<T>)
    requires multiset(s) == multiset(t) && DistinctBy(key, s)
    ensures DistinctBy(key, t)
  {
    forall i, j | 0 <= i < j < |t| ensures key(t[i]) != key(t[j]) {
      assert t[i] in multiset(s) && t[j] in multiset(s);
      var a :| 0 <= a < |s| && s[a] == t[i];
      var b :| 0 <= b < |s| && s[b] == t[j];
      if t[i] == t[j] {
        SeparateTwice(t, i, j);
        OccursOnce(s, key, t[i]);
      }
      assert a != b;
    }
  }
}
