/** Arrays of keyed entries as maps: what removing, appending and renaming entries does to the map. */
module Tables {
  import opened SnapshotTree

  datatype Row = Row(key: string, value: string)

  ghost predicate Distinct(rows: seq<Row>) {
    forall i, j :: 0 <= i < j < |rows| ==> rows[i].key != rows[j].key
  }

  function MapOf(rows: seq<Row>): map<string, string> {
    if rows == [] then map[]
    else var last := rows[|rows| - 1]; MapOf(rows[..|rows| - 1])[last.key := last.value]
  }

  lemma {:induction false} MapAt(rows: seq<Row>, i: nat)
    requires Distinct(rows) && i < |rows|
    ensures rows[i].key in MapOf(rows) && MapOf(rows)[rows[i].key] == rows[i].value
    decreases |rows|
  {
    if i < |rows| - 1 { MapAt(rows[..|rows| - 1], i); }
  }

  lemma {:induction false} MapIn(rows: seq<Row>, g: string)
    requires g in MapOf(rows)
    ensures exists i :: 0 <= i < |rows| && rows[i].key == g
    decreases |rows|
  {
    var last := rows[|rows| - 1];
    if g != last.key {
      MapIn(rows[..|rows| - 1], g);
      var i :| 0 <= i < |rows| - 1 && rows[..|rows| - 1][i].key == g;
      assert rows[i].key == g;
    }
  }

  lemma {:induction false} MapSize(rows: seq<Row>)
    ensures |MapOf(rows)| <= |rows|
  {
    if rows != [] {
      var init, last := rows[..|rows| - 1], rows[|rows| - 1];
      MapSize(init);
      assert MapOf(rows).Keys == MapOf(init).Keys + {last.key};
      assert |MapOf(rows)| == |MapOf(rows).Keys| && |MapOf(init)| == |MapOf(init).Keys|;
    }
  }

  /** A key found once is not found before its row. */
  lemma LastKeyNew(rows: seq<Row>)
    requires Distinct(rows) && |rows| > 0
    ensures Distinct(rows[..|rows| - 1]) && rows[|rows| - 1].key !in MapOf(rows[..|rows| - 1])
  {
    var init, last := rows[..|rows| - 1], rows[|rows| - 1];
    if last.key in MapOf(init) { MapIn(init, last.key); }
  }

  lemma WithoutUpdate(m: map<string, string>, k: string, a: string, b: string)
    ensures Without(m[a := b], k) == if a == k then Without(m, k) else Without(m, k)[a := b]
    ensures k !in m ==> Without(m, k) == m
  {
  }

  lemma RemovedDistinct(rows: seq<Row>, k: nat)
    requires Distinct(rows) && k < |rows|
    ensures Distinct(rows[..k] + rows[k + 1..])
  {
  }

  lemma {:induction false} MapRemoved(rows: seq<Row>, k: nat)
    requires Distinct(rows) && k < |rows|
    ensures MapOf(rows[..k] + rows[k + 1..]) == Without(MapOf(rows), rows[k].key)
    decreases |rows|
  {
    var n := |rows| - 1;
    var init, last := rows[..n], rows[n];
    LastKeyNew(rows);
    WithoutUpdate(MapOf(init), rows[k].key, last.key, last.value);
    if k == n {
      assert rows[..k] + rows[k + 1..] == init;
    } else {
      MapRemoved(init, k);
      LastStays(rows, k);
      assert rows[k].key != last.key;
    }
  }

  lemma LastStays(rows: seq<Row>, k: nat)
    requires k < |rows| - 1
    ensures var init, last := rows[..|rows| - 1], rows[|rows| - 1];
      MapOf(rows[..k] + rows[k + 1..]) == MapOf(init[..k] + init[k + 1..])[last.key := last.value]
  {
    var rest, init := rows[..k] + rows[k + 1..], rows[..|rows| - 1];
    assert rest[..|rest| - 1] == init[..k] + init[k + 1..] && rest[|rest| - 1] == rows[|rows| - 1];
  }

  function RenRow(r: Row, x: string, y: string, both: bool): Row {
    Row(Ren(x, y, r.key), if both then Ren(x, y, r.value) else r.value)
  }

  function RenRows(rows: seq<Row>, x: string, y: string, both: bool): (s: seq<Row>)
    ensures |s| == |rows| && forall i :: 0 <= i < |rows| ==> s[i] == RenRow(rows[i], x, y, both)
  {
    seq(|rows|, i requires 0 <= i < |rows| => RenRow(rows[i], x, y, both))
  }

  /** Renaming key `x`, and with `both` also value `x`. */
  function RenMap(m: map<string, string>, x: string, y: string, both: bool): map<string, string> {
    var rest := map g | g in m && g != x :: if both then Ren(x, y, m[g]) else m[g];
    if x in m then rest[y := if both then Ren(x, y, m[x]) else m[x]] else rest
  }

  lemma RenMapIs(m: map<string, string>, x: string, y: string)
    requires x in m
    ensures RenMap(m, x, y, true) == RenamedParents(m, x, y) && RenMap(m, x, y, false) == RenamedFiles(m, x, y)
  {
  }

  lemma RenUpdate(m: map<string, string>, x: string, y: string, both: bool, r: Row)
    requires y !in m && r.key != y && x != y && r.key !in m
    ensures RenMap(m[r.key := r.value], x, y, both) == RenMap(m, x, y,
      both)[RenRow(r, x, y, both).key := RenRow(r, x, y, both).value]
  {
  }

  lemma RenamedDistinct(rows: seq<Row>, x: string, y: string, both: bool)
    requires Distinct(rows) && y !in MapOf(rows)
    ensures Distinct(RenRows(rows, x, y, both))
  {
    var s := RenRows(rows, x, y, both);
    forall i, j | 0 <= i < j < |rows| ensures s[i].key != s[j].key {
      MapAt(rows, i);
      MapAt(rows, j);
    }
  }

  lemma {:induction false} MapRenamed(rows: seq<Row>, x: string, y: string, both: bool)
    requires Distinct(rows) && y !in MapOf(rows) && x != y
    ensures MapOf(RenRows(rows, x, y, both)) == RenMap(MapOf(rows), x, y, both)
    decreases |rows|
  {
    if rows != [] {
      var init, last := rows[..|rows| - 1], rows[|rows| - 1];
      assert RenRows(rows, x, y, both)[..|rows| - 1] == RenRows(init, x, y, both);
      LastKeyNew(rows);
      MapRenamed(init, x, y, both);
      RenUpdate(MapOf(init), x, y, both, last);
    }
  }

  /** Row `s` goes and key `x` takes over its key. */
  lemma MapReplaced(rows: seq<Row>, s: nat, x: string, both: bool)
    requires Distinct(rows) && s < |rows| && x != rows[s].key
    ensures var rows' := RenRows(rows[..s] + rows[s + 1..], x, rows[s].key, both);
      Distinct(rows') && MapOf(rows') == RenMap(Without(MapOf(rows), rows[s].key), x, rows[s].key, both)
  {
    var rest, c := rows[..s] + rows[s + 1..], rows[s].key;
    MapRemoved(rows, s);
    RemovedDistinct(rows, s);
    MapRenamed(rest, x, c, both);
    RenamedDistinct(rest, x, c, both);
  }

  /** Dropping row `s` with key `c` and renaming the value `x`, and the key `x`, to `c`. */
  lemma ParentsReplaced(rows: seq<Row>, s: nat, c: string, x: string, rows': seq<Row>)
    requires Distinct(rows) && s < |rows| && rows[s].key == c && x != c && x in MapOf(rows)
    requires rows' == RenRows(rows[..s] + rows[s + 1..], x, c, true)
    ensures Distinct(rows') && MapOf(rows') == RenamedParents(Without(MapOf(rows), c), x, c)
  {
    MapReplaced(rows, s, x, true);
    RenMapIs(Without(MapOf(rows), c), x, c);
  }

  lemma FilesReplaced(rows: seq<Row>, s: nat, c: string, x: string, rows': seq<Row>)
    requires Distinct(rows) && s < |rows| && rows[s].key == c && x != c && x in MapOf(rows)
    requires rows' == RenRows(rows[..s] + rows[s + 1..], x, c, false)
    ensures Distinct(rows') && MapOf(rows') == RenamedFiles(Without(MapOf(rows), c), x, c)
  {
    MapReplaced(rows, s, x, false);
    RenMapIs(Without(MapOf(rows), c), x, c);
  }

  lemma MapAbsorbed(rows: seq<Row>, s: nat, x: string)
    requires Distinct(rows) && s < |rows| && x in MapOf(rows) && x != rows[s].key
    ensures var rows' := RenRows(rows[..s] + rows[s + 1..], x, rows[s].key, false);
      Distinct(rows') && MapOf(rows') == Without(MapOf(rows), x)[rows[s].key := MapOf(rows)[x]]
  {
    var c := rows[s].key;
    MapReplaced(rows, s, x, false);
    assert RenMap(Without(MapOf(rows), c), x, c, false) == Without(MapOf(rows), x)[c := MapOf(rows)[x]];
  }
}
