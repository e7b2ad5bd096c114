/**
 * The ZIP index (`_load_zip_to_providers_from_unique`): reading the
 * prebuilt long-format file of (zip, provider_id) rows into a map from
 * zero-padded ZIP to the sorted, distinct provider ids of that ZIP. Also
 * the county-merge source, which in this revision always yields nothing.
 */
module ZipIndex {
  import opened Wrappers
  import opened Text
  import opened Ids
  import opened Tables
  import opened Dicts

  /** The ZIP column, as it reads once headers are cleaned. */
  const ZipColumn := "zip"

  /** The two maps a ZIP source produces: providers per ZIP and counties per ZIP. */
  datatype Index = Index(providers: map<string, seq<nat>>, counties: map<string, seq<string>>)

  /** The `{}, {}` every failure path returns. */
  const Empty := Index(map[], map[])

  // ---------------------------------------------------------------------
  // Grouping rows by ZIP
  // ---------------------------------------------------------------------

  /**
   * The (zip, id) pairs of the rows that take part in the grouping: the id is
   * present and numeric (the rest are dropped by `dropna`), and the zip is
   * present (`groupby` leaves out rows whose key is missing).
   */
  function ZipIdPairs(cols: seq<string>, rows: seq<Row>): (r: seq<(string, nat)>)
    ensures forall q :: q in r <==>
              exists i :: 0 <= i < |rows| && Cell(cols, rows[i], ZipColumn) == Some(q.0)
                                         && RowId(cols, rows[i]) == Some(q.1)
  {
    if rows == [] then []
    else
      var rest := ZipIdPairs(cols, rows[..|rows| - 1]);
      var last := rows[|rows| - 1];
      assert forall i :: 0 <= i < |rows| - 1 ==> rows[..|rows| - 1][i] == rows[i];
      match (Cell(cols, last, ZipColumn), RowId(cols, last))
      case (Some(z), Some(id)) => rest + [(z, id)]
      case _ => rest
  }

  /** The groups of `groupby("zip")`: every raw ZIP once, in order of first appearance. */
  function GroupKeys(ps: seq<(string, nat)>): (r: seq<string>)
    ensures forall z :: z in r <==> exists i :: 0 <= i < |ps| && ps[i].0 == z
    ensures forall i, j :: 0 <= i < j < |r| ==> r[i] != r[j]
  {
    if ps == [] then []
    else
      var init := ps[..|ps| - 1];
      var r := GroupKeys(init);
      assert forall i :: 0 <= i < |init| ==> init[i] == ps[i];
      if ps[|ps| - 1].0 in r then r else r + [ps[|ps| - 1].0]
  }

  /** The ids of the rows of group `z`, in row order and with repeats. */
  function IdsOf(ps: seq<(string, nat)>, z: string): (r: seq<nat>)
    ensures forall y :: y in r <==> (z, y) in ps
  {
    if ps == [] then []
    else
      var init := ps[..|ps| - 1];
      var r := IdsOf(init, z);
      assert ps == init + [ps[|ps| - 1]];
      if ps[|ps| - 1].0 == z then r + [ps[|ps| - 1].1] else r
  }

  /** `sorted({int(x) for x in s})` over group `z`: its distinct ids in ascending order. */
  function GroupIds(ps: seq<(string, nat)>, z: string): (r: seq<nat>)
    ensures StrictlyAscending(r)
    ensures forall y :: y in r <==> (z, y) in ps
  {
    SortedDistinct(IdsOf(ps, z))
  }

  /** The assignments `providers_map[str(zip).zfill(5)] = ids`, one per group, in group order. */
  function Assignments(ps: seq<(string, nat)>, keys: seq<string>): (r: seq<(string, seq<nat>)>)
    ensures |r| == |keys|
    ensures forall j :: 0 <= j < |keys| ==> r[j].0 == ZFill(keys[j], ZipWidth) && r[j].1 == GroupIds(ps, keys[j])
  {
    seq(|keys|, j requires 0 <= j < |keys| => (ZFill(keys[j], ZipWidth), GroupIds(ps, keys[j])))
  }

  /** Lines 88-92 on a file whose cleaned headers are `cols`: the padded ZIP of each group mapped to its ids. */
  function Grouped(cols: seq<string>, rows: seq<Row>): map<string, seq<nat>> {
    var ps := ZipIdPairs(cols, rows);
    LastWins(Assignments(ps, GroupKeys(ps)))
  }

  /** Each entry of the grouped map is the id list of one group whose ZIP pads to the entry's key. */
  lemma GroupEntry(ps: seq<(string, nat)>, k: string) returns (z: string)
    requires k in LastWins(Assignments(ps, GroupKeys(ps)))
    ensures ZFill(z, ZipWidth) == k && LastWins(Assignments(ps, GroupKeys(ps)))[k] == GroupIds(ps, z)
    ensures exists y :: (z, y) in ps
  {
    var keys := GroupKeys(ps);
    var j := LastWinsValue(Assignments(ps, keys), k);
    z := keys[j];
    assert z in keys;
    var w :| 0 <= w < |ps| && ps[w].0 == z;
    assert ps[w] in ps;
  }

  /** A padded key is its own padding and at least five long. */
  lemma PaddedKey(z: string, k: string)
    requires ZFill(z, ZipWidth) == k
    ensures ZFill(k, ZipWidth) == k && |k| >= ZipWidth
  {
    ZFillIdempotent(z, ZipWidth);
  }

  /** The id list of group `z` holds exactly the ids of the rows whose ZIP is `z`. */
  lemma GroupIdsOfRows(cols: seq<string>, rows: seq<Row>, z: string)
    ensures forall y :: y in GroupIds(ZipIdPairs(cols, rows), z) <==>
              exists i :: 0 <= i < |rows| && Cell(cols, rows[i], ZipColumn) == Some(z) && RowId(cols, rows[i]) == Some(y)
  {
    var ps := ZipIdPairs(cols, rows);
    forall y ensures y in GroupIds(ps, z) <==> (z, y) in ps {
    }
  }

  /**
   * Shape of the grouped map: every key is the `zfill(5)` of a ZIP found in
   * the file, hence its own padding and at least five long, and its value is
   * strictly ascending and holds exactly the ids of the rows with that raw ZIP.
   */
  lemma GroupedShape(cols: seq<string>, rows: seq<Row>, k: string) returns (z: string)
    requires k in Grouped(cols, rows)
    ensures var v := Grouped(cols, rows)[k];
            && ZFill(z, ZipWidth) == k && ZFill(k, ZipWidth) == k && |k| >= ZipWidth
            && StrictlyAscending(v)
            && (exists i :: 0 <= i < |rows| && Cell(cols, rows[i], ZipColumn) == Some(z) && RowId(cols, rows[i]).Some?)
            && (forall y :: y in v <==>
                  exists i :: 0 <= i < |rows| && Cell(cols, rows[i], ZipColumn) == Some(z) && RowId(cols, rows[i]) == Some(y))
  {
    var ps := ZipIdPairs(cols, rows);
    z := GroupEntry(ps, k);
    PaddedKey(z, k);
    GroupIdsOfRows(cols, rows, z);
    var y :| (z, y) in ps;
    assert y in GroupIds(ps, z);
  }

  /** Every row with a present ZIP and a numeric id puts its padded ZIP in the grouped map. */
  lemma GroupedComplete(cols: seq<string>, rows: seq<Row>, i: nat)
    requires i < |rows| && Cell(cols, rows[i], ZipColumn).Some? && RowId(cols, rows[i]).Some?
    ensures ZFill(Cell(cols, rows[i], ZipColumn).value, ZipWidth) in Grouped(cols, rows)
  {
    var ps := ZipIdPairs(cols, rows);
    var keys := GroupKeys(ps);
    var asg := Assignments(ps, keys);
    var q := (Cell(cols, rows[i], ZipColumn).value, RowId(cols, rows[i]).value);
    assert q in ps;
    var w :| 0 <= w < |ps| && ps[w] == q;
    assert q.0 in keys;
    var j :| 0 <= j < |keys| && keys[j] == q.0;
    assert asg[j].0 == ZFill(q.0, ZipWidth);
    LastWinsKeys(asg, ZFill(q.0, ZipWidth));
  }

  /** No two different ZIPs of the file pad to the same key, so the order of the groups cannot matter. */
  predicate NoPaddingCollision(cols: seq<string>, rows: seq<Row>) {
    forall a, b :: 0 <= a < |rows| && 0 <= b < |rows|
      && Cell(cols, rows[a], ZipColumn).Some? && Cell(cols, rows[b], ZipColumn).Some?
      && ZFill(Cell(cols, rows[a], ZipColumn).value, ZipWidth) == ZFill(Cell(cols, rows[b], ZipColumn).value, ZipWidth)
      ==> Cell(cols, rows[a], ZipColumn) == Cell(cols, rows[b], ZipColumn)
  }

  /**
   * Without padding collisions, the entry for a row's ZIP holds exactly the
   * ids of the rows with that ZIP.
   */
  lemma GroupedLookup(cols: seq<string>, rows: seq<Row>, i: nat)
    requires i < |rows| && Cell(cols, rows[i], ZipColumn).Some? && RowId(cols, rows[i]).Some?
    requires NoPaddingCollision(cols, rows)
    ensures var z := Cell(cols, rows[i], ZipColumn).value;
            && ZFill(z, ZipWidth) in Grouped(cols, rows)
            && forall y :: y in Grouped(cols, rows)[ZFill(z, ZipWidth)] <==>
                 exists j :: 0 <= j < |rows| && Cell(cols, rows[j], ZipColumn) == Some(z) && RowId(cols, rows[j]) == Some(y)
  {
    var z := Cell(cols, rows[i], ZipColumn).value;
    GroupedComplete(cols, rows, i);
    var z' := GroupedShape(cols, rows, ZFill(z, ZipWidth));
    var a :| 0 <= a < |rows| && Cell(cols, rows[a], ZipColumn) == Some(z') && RowId(cols, rows[a]).Some?;
    assert Cell(cols, rows[a], ZipColumn) == Cell(cols, rows[i], ZipColumn);
  }

  // ---------------------------------------------------------------------
  // The direct source
  // ---------------------------------------------------------------------

  /**
   * What `_load_zip_to_providers_from_unique` returns: nothing without the
   * file or without a `zip` column, no providers without a `provider_id`
   * column, otherwise one entry per group; the county map is never filled.
   */
  function DirectIndex(fileExists: bool, t: Table): (r: Index)
    ensures !fileExists || ZipColumn !in NormalizeColumns(t.header) ==> r == Empty
    ensures IdColumn !in NormalizeColumns(t.header) ==> r.providers == map[]
    ensures r.counties == map[]
    ensures var cols := NormalizeColumns(t.header);
            fileExists && ZipColumn in cols && IdColumn in cols ==> r.providers == Grouped(cols, t.rows)
  {
    if !fileExists then Empty
    else
      var cols := NormalizeColumns(t.header);
      if ZipColumn !in cols then Empty
      else if IdColumn !in cols then Index(map[], map[])
      else Index(Grouped(cols, t.rows), map[])
  }

  /** A non-empty direct index comes from a present file with both columns and is its grouped map. */
  lemma DirectIndexGrouped(fileExists: bool, t: Table)
    ensures var cols := NormalizeColumns(t.header);
            DirectIndex(fileExists, t).providers != map[] ==>
            && fileExists && ZipColumn in cols && IdColumn in cols
            && DirectIndex(fileExists, t).providers == Grouped(cols, t.rows)
  {
  }

  /**
   * The loop of lines 91-92: one assignment `providers_map[zfill(zip)] = ids`
   * per group, in group order, later assignments overwriting earlier ones.
   */
  method FillProviders(ps: seq<(string, nat)>, keys: seq<string>) returns (providers: map<string, seq<nat>>)
    ensures providers == LastWins(Assignments(ps, keys))
  {
    ghost var asg := Assignments(ps, keys);
    providers := map[];
    for i := 0 to |keys|
      invariant providers == LastWins(asg[..i])
    {
      assert asg[..i + 1] == asg[..i] + [asg[i]];
      LastWinsAppend(asg[..i], asg[i]);
      providers := providers[ZFill(keys[i], ZipWidth) := GroupIds(ps, keys[i])];
    }
    assert asg[..|keys|] == asg;
  }

  /**
   * The loader itself: the same early returns, then the groups of the file
   * written into `providers_map` by the loop.
   */
  method LoadFromUnique(fileExists: bool, t: Table) returns (providers: map<string, seq<nat>>, counties: map<string, seq<string>>)
    ensures Index(providers, counties) == DirectIndex(fileExists, t)
  {
    if !fileExists {
      return map[], map[];
    }
    var cols := NormalizeColumns(t.header);
    if ZipColumn !in cols {
      return map[], map[];
    }
    providers, counties := map[], map[];
    if IdColumn in cols {
      var ps := ZipIdPairs(cols, t.rows);
      providers := FillProviders(ps, GroupKeys(ps));
    }
  }

  // ---------------------------------------------------------------------
  // The county-merge source
  // ---------------------------------------------------------------------

  /**
   * `_load_zip_to_providers_from_county_merge`: without either file it
   * returns nothing; with both, its body refers to a result that is never
   * built, the error is caught, and it returns nothing as well.
   */
  function CountyMerge(byCountyExists: bool, crosswalkExists: bool): (r: Index)
    ensures r.providers == map[] && r.counties == map[]
  {
    Empty
  }
}
