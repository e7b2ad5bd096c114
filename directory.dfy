/**
 * The provider directory (`load_provider_names`): reading the provider list
 * into a map from provider id to display name.
 */
module Directory {
  import opened Wrappers
  import opened Text
  import opened Ids
  import opened Tables
  import opened Dicts

  /** The name columns, in the order they are tried; the first one present is used. */
  const NameCandidates: seq<string> :=
    ["holding_company", "provider_name", "brand_name", "doing_business_as", "holding_company_name"]

  /** Why reading the provider list failed; either way the directory stays empty. */
  datatype LoadError = MissingIdColumn | NoNameColumn

  // ---------------------------------------------------------------------
  // Choosing the name column
  // ---------------------------------------------------------------------

  /** The first of `cands` that is a column of `cols`. */
  function FirstPresent(cands: seq<string>, cols: seq<string>): (r: Option<string>)
    ensures r.None? <==> forall i :: 0 <= i < |cands| ==> cands[i] !in cols
    ensures r.Some? ==> r.value in cols && r.value in cands
  {
    if cands == [] then None
    else if cands[0] in cols then Some(cands[0])
    else FirstPresent(cands[1..], cols)
  }

  /** First match wins: the candidate chosen is the present one that comes first. */
  lemma {:induction false} FirstPresentAt(cands: seq<string>, cols: seq<string>, i: nat)
    requires i < |cands| && cands[i] in cols
    requires forall j :: 0 <= j < i ==> cands[j] !in cols
    ensures FirstPresent(cands, cols) == Some(cands[i])
  {
    if i > 0 {
      FirstPresentAt(cands[1..], cols, i - 1);
    }
  }

  /**
   * The name column of a provider list: `holding_company` when present,
   * otherwise the first of the fallbacks that is present, otherwise none.
   */
  method NameColumn(cols: seq<string>) returns (nameCol: Option<string>)
    ensures nameCol == FirstPresent(NameCandidates, cols)
  {
    var name := NameCandidates[0];
    if name !in cols {
      var fallbacks := NameCandidates[1..];
      for k := 0 to |fallbacks|
        invariant name == NameCandidates[0]
        invariant forall j :: 0 <= j < k ==> fallbacks[j] !in cols
      {
        if fallbacks[k] in cols {
          name := fallbacks[k];
          FirstPresentAt(NameCandidates, cols, k + 1);
          break;
        }
      }
    } else {
      FirstPresentAt(NameCandidates, cols, 0);
    }
    nameCol := if name in cols then Some(name) else None;
  }

  // ---------------------------------------------------------------------
  // From rows to the directory
  // ---------------------------------------------------------------------

  /** `df[["provider_id", name_col]].dropna()`: the (id, name) cells of the rows where both are present. */
  function PresentPairs(cols: seq<string>, rows: seq<Row>, nameCol: string): (r: seq<(string, string)>)
    ensures forall p :: p in r <==>
              exists i :: 0 <= i < |rows| && Cell(cols, rows[i], IdColumn) == Some(p.0)
                                         && Cell(cols, rows[i], nameCol) == Some(p.1)
  {
    if rows == [] then []
    else
      var rest := PresentPairs(cols, rows[..|rows| - 1], nameCol);
      var last := rows[|rows| - 1];
      assert forall i :: 0 <= i < |rows| - 1 ==> rows[..|rows| - 1][i] == rows[i];
      match (Cell(cols, last, IdColumn), Cell(cols, last, nameCol))
      case (Some(id), Some(name)) => rest + [(id, name)]
      case _ => rest
  }

  /** `drop_duplicates()`: each element once, at the place of its first occurrence. */
  function Dedup(s: seq<(string, string)>): (r: seq<(string, string)>)
    ensures forall x :: x in r <==> x in s
    ensures forall i, j :: 0 <= i < j < |r| ==> r[i] != r[j]
  {
    if s == [] then []
    else
      var d := Dedup(s[..|s| - 1]);
      assert s == s[..|s| - 1] + [s[|s| - 1]];
      if s[|s| - 1] in d then d else d + [s[|s| - 1]]
  }

  /** A sequence without repeated elements is its own deduplication. */
  lemma {:induction false} DedupOfDistinct(s: seq<(string, string)>)
    requires forall i, j :: 0 <= i < j < |s| ==> s[i] != s[j]
    ensures Dedup(s) == s
  {
    if s != [] {
      var init := s[..|s| - 1];
      DedupOfDistinct(init);
      assert s[|s| - 1] !in init;
      assert s == init + [s[|s| - 1]];
    }
  }

  /** `to_numeric(errors="coerce")` then `dropna`: pairs whose id is numeric, with the id as an integer. */
  function NumericIds(ps: seq<(string, string)>): (r: seq<(nat, string)>)
    ensures forall q :: q in r <==> exists p :: p in ps && ParseId(p.0) == Some(q.0) && p.1 == q.1
  {
    if ps == [] then []
    else
      var rest := NumericIds(ps[..|ps| - 1]);
      var last := ps[|ps| - 1];
      assert ps == ps[..|ps| - 1] + [last];
      match ParseId(last.0)
      case Some(id) => rest + [(id, last.1)]
      case None => rest
  }

  /** `str(n).strip()` applied to the name of every pair. */
  function StripNames(ps: seq<(nat, string)>): (r: seq<(nat, string)>)
    ensures |r| == |ps|
    ensures forall i :: 0 <= i < |ps| ==> r[i].0 == ps[i].0 && r[i].1 == Strip(ps[i].1)
  {
    seq(|ps|, i requires 0 <= i < |ps| => (ps[i].0, Strip(ps[i].1)))
  }

  /** The (id, name) pairs that reach the dict-building step, before names are stripped. */
  function NumericPairs(cols: seq<string>, rows: seq<Row>, nameCol: string): seq<(nat, string)> {
    NumericIds(Dedup(PresentPairs(cols, rows, nameCol)))
  }

  /**
   * Lines 64-67 on a provider list whose headers are `cols` and whose name
   * column is `nameCol`: the dict of stripped names.
   */
  function DirectoryOf(cols: seq<string>, rows: seq<Row>, nameCol: string): map<nat, string> {
    LastWins(StripNames(NumericPairs(cols, rows, nameCol)))
  }

  /**
   * The body of the `try` in `load_provider_names`: fails when the cleaned
   * headers have no `provider_id` or no name column; otherwise the directory.
   */
  function ReadDirectory(t: Table): (r: Result<map<nat, string>, LoadError>)
    ensures var cols := NormalizeColumns(t.header);
            r.Failure? <==> IdColumn !in cols || forall i :: 0 <= i < |NameCandidates| ==> NameCandidates[i] !in cols
    ensures r.Failure? ==> (r.error == MissingIdColumn <==> IdColumn !in NormalizeColumns(t.header))
  {
    var cols := NormalizeColumns(t.header);
    if IdColumn !in cols then Failure(MissingIdColumn)
    else
      match FirstPresent(NameCandidates, cols)
      case None => Failure(NoNameColumn)
      case Some(nameCol) => Success(DirectoryOf(cols, t.rows, nameCol))
  }

  /** A read succeeds exactly when a name column is chosen, and then it is the directory of that column. */
  lemma ReadDirectoryOf(t: Table)
    ensures var cols := NormalizeColumns(t.header);
            ReadDirectory(t).Success? <==> IdColumn in cols && FirstPresent(NameCandidates, cols).Some?
    ensures var cols := NormalizeColumns(t.header);
            ReadDirectory(t).Success? ==>
              ReadDirectory(t).value == DirectoryOf(cols, t.rows, FirstPresent(NameCandidates, cols).value)
  {
  }

  /** With `provider_id` present and the first name column chosen, the read succeeds with that column's directory. */
  lemma ReadDirectoryChosen(t: Table, cols: seq<string>, nameCol: string)
    requires cols == NormalizeColumns(t.header) && IdColumn in cols
    requires FirstPresent(NameCandidates, cols) == Some(nameCol)
    ensures ReadDirectory(t) == Success(DirectoryOf(cols, t.rows, nameCol))
  {
  }

  /**
   * The body of `load_provider_names` after the reset: nothing without the
   * file; otherwise the headers are cleaned, `provider_id` is required, the
   * name column is looked for, and the directory of that column is built.
   * Every failure gives the empty directory.
   */
  method LoadDirectory(fileExists: bool, t: Table) returns (m: map<nat, string>)
    ensures fileExists && ReadDirectory(t).Success? ==> m == ReadDirectory(t).value
    ensures !fileExists || ReadDirectory(t).Failure? ==> m == map[]
  {
    m := map[];
    if !fileExists {
      return;
    }
    var cols := NormalizeColumns(t.header);
    if IdColumn !in cols {
      return;
    }
    var nameCol := NameColumn(cols);
    if nameCol.None? {
      return;
    }
    ReadDirectoryChosen(t, cols, nameCol.value);
    m := DirectoryOf(cols, t.rows, nameCol.value);
  }

  // ---------------------------------------------------------------------
  // What the directory holds
  // ---------------------------------------------------------------------

  /** Every row with a present numeric id and a present name reaches the dict-building step. */
  lemma RowReachesPairs(cols: seq<string>, rows: seq<Row>, nameCol: string, i: nat)
    requires i < |rows| && RowId(cols, rows[i]).Some? && Cell(cols, rows[i], nameCol).Some?
    ensures (RowId(cols, rows[i]).value, Cell(cols, rows[i], nameCol).value) in NumericPairs(cols, rows, nameCol)
  {
    var present := PresentPairs(cols, rows, nameCol);
    var p := (Cell(cols, rows[i], IdColumn).value, Cell(cols, rows[i], nameCol).value);
    assert p in present;
    assert p in Dedup(present);
  }

  /** Every pair reaching the dict-building step comes from a row with that id and that name. */
  lemma PairFromRow(cols: seq<string>, rows: seq<Row>, nameCol: string, q: (nat, string)) returns (i: nat)
    requires q in NumericPairs(cols, rows, nameCol)
    ensures i < |rows| && RowId(cols, rows[i]) == Some(q.0) && Cell(cols, rows[i], nameCol) == Some(q.1)
  {
    var present := PresentPairs(cols, rows, nameCol);
    var p :| p in Dedup(present) && ParseId(p.0) == Some(q.0) && p.1 == q.1;
    assert p in present;
    i :| 0 <= i < |rows| && Cell(cols, rows[i], IdColumn) == Some(p.0) && Cell(cols, rows[i], nameCol) == Some(p.1);
  }

  /** Every id of a pair gets an entry. */
  lemma StrippedKeys(ps: seq<(nat, string)>, q: (nat, string))
    requires q in ps
    ensures q.0 in LastWins(StripNames(ps))
  {
    var stripped := StripNames(ps);
    var j :| 0 <= j < |ps| && ps[j] == q;
    assert stripped[j].0 == q.0;
    LastWinsKeys(stripped, q.0);
  }

  /** Every entry is the stripped name of a pair carrying its id. */
  lemma StrippedEntry(ps: seq<(nat, string)>, k: nat) returns (q: (nat, string))
    requires k in LastWins(StripNames(ps))
    ensures q in ps && q.0 == k && LastWins(StripNames(ps))[k] == Strip(q.1)
  {
    var j := LastWinsValue(StripNames(ps), k);
    q := ps[j];
  }

  /** Every row with a present numeric id and a present name puts its id in the directory. */
  lemma DirectoryHasRow(cols: seq<string>, rows: seq<Row>, nameCol: string, i: nat)
    requires i < |rows| && RowId(cols, rows[i]).Some? && Cell(cols, rows[i], nameCol).Some?
    ensures RowId(cols, rows[i]).value in DirectoryOf(cols, rows, nameCol)
  {
    RowReachesPairs(cols, rows, nameCol, i);
    StrippedKeys(NumericPairs(cols, rows, nameCol), (RowId(cols, rows[i]).value, Cell(cols, rows[i], nameCol).value));
  }

  /** Every entry of the directory is the stripped name of a row with that id and a present name. */
  lemma DirectoryEntryFromRow(cols: seq<string>, rows: seq<Row>, nameCol: string, k: nat) returns (i: nat)
    requires k in DirectoryOf(cols, rows, nameCol)
    ensures && i < |rows| && RowId(cols, rows[i]) == Some(k) && Cell(cols, rows[i], nameCol).Some?
            && DirectoryOf(cols, rows, nameCol)[k] == Strip(Cell(cols, rows[i], nameCol).value)
  {
    var q := StrippedEntry(NumericPairs(cols, rows, nameCol), k);
    i := PairFromRow(cols, rows, nameCol, q);
  }

  /**
   * What the directory holds: an id has an entry exactly when some row has
   * that present, numeric id and a present name, and every entry is the
   * stripped name of such a row.
   */
  lemma DirectoryContents(cols: seq<string>, rows: seq<Row>, nameCol: string)
    ensures var m := DirectoryOf(cols, rows, nameCol);
            && (forall i :: 0 <= i < |rows| && RowId(cols, rows[i]).Some? && Cell(cols, rows[i], nameCol).Some? ==>
                  RowId(cols, rows[i]).value in m)
            && (forall k :: k in m ==>
                  exists i :: 0 <= i < |rows| && RowId(cols, rows[i]) == Some(k)
                              && Cell(cols, rows[i], nameCol).Some?
                              && m[k] == Strip(Cell(cols, rows[i], nameCol).value))
  {
    var m := DirectoryOf(cols, rows, nameCol);
    forall i | 0 <= i < |rows| && RowId(cols, rows[i]).Some? && Cell(cols, rows[i], nameCol).Some?
      ensures RowId(cols, rows[i]).value in m
    {
      DirectoryHasRow(cols, rows, nameCol, i);
    }
    forall k | k in m
      ensures exists i :: 0 <= i < |rows| && RowId(cols, rows[i]) == Some(k)
                          && Cell(cols, rows[i], nameCol).Some?
                          && m[k] == Strip(Cell(cols, rows[i], nameCol).value)
    {
      var i := DirectoryEntryFromRow(cols, rows, nameCol, k);
    }
  }

  // ---------------------------------------------------------------------
  // Which row wins
  // ---------------------------------------------------------------------

  /** Both cells of a row are present, and its id is numeric. */
  predicate Qualifies(cols: seq<string>, row: Row, nameCol: string) {
    RowId(cols, row).Some? && Cell(cols, row, nameCol).Some?
  }

  /** Two rows carry the same id cell and the same name cell: `drop_duplicates` keeps only the first. */
  predicate SameCells(cols: seq<string>, a: Row, b: Row, nameCol: string) {
    Cell(cols, a, IdColumn) == Cell(cols, b, IdColumn) && Cell(cols, a, nameCol) == Cell(cols, b, nameCol)
  }

  lemma DedupAppend(s: seq<(string, string)>, x: (string, string))
    ensures Dedup(s + [x]) == if x in s then Dedup(s) else Dedup(s) + [x]
  {
    assert (s + [x])[..|s|] == s;
  }

  lemma NumericIdsAppend(s: seq<(string, string)>, x: (string, string))
    ensures NumericIds(s + [x]) == match ParseId(x.0) case Some(id) => NumericIds(s) + [(id, x.1)] case None => NumericIds(s)
  {
    assert (s + [x])[..|s|] == s;
  }

  lemma StripNamesAppend(s: seq<(nat, string)>, q: (nat, string))
    ensures StripNames(s + [q]) == StripNames(s) + [(q.0, Strip(q.1))]
  {
    var l := StripNames(s + [q]);
    var r := StripNames(s) + [(q.0, Strip(q.1))];
    forall i | 0 <= i < |l|
      ensures l[i] == r[i]
    {
      if i < |s| {
        assert (s + [q])[i] == s[i];
      } else {
        assert (s + [q])[i] == q;
      }
    }
  }

  /** The pipeline after `dropna`, on pairs: a new pair with a numeric id sets its id to its stripped name. */
  lemma PairsStep(present: seq<(string, string)>, p: (string, string))
    ensures var before := LastWins(StripNames(NumericIds(Dedup(present))));
            LastWins(StripNames(NumericIds(Dedup(present + [p])))) ==
              if p !in present && ParseId(p.0).Some? then before[ParseId(p.0).value := Strip(p.1)] else before
  {
    DedupAppend(present, p);
    if p !in present {
      var d := Dedup(present);
      NumericIdsAppend(d, p);
      if ParseId(p.0).Some? {
        var k := ParseId(p.0).value;
        StripNamesAppend(NumericIds(d), (k, p.1));
        LastWinsAppend(StripNames(NumericIds(d)), (k, Strip(p.1)));
      }
    }
  }

  /** `dropna` on one more row: the row's pair is appended exactly when both its cells are present. */
  lemma PresentStep(cols: seq<string>, rows: seq<Row>, nameCol: string)
    requires rows != []
    ensures var last := rows[|rows| - 1];
            var before := PresentPairs(cols, rows[..|rows| - 1], nameCol);
            PresentPairs(cols, rows, nameCol) ==
              if Cell(cols, last, IdColumn).Some? && Cell(cols, last, nameCol).Some?
              then before + [(Cell(cols, last, IdColumn).value, Cell(cols, last, nameCol).value)]
              else before
  {
  }

  /** A row's pair was kept before exactly when an earlier row has the same two cells. */
  lemma PresentBefore(cols: seq<string>, rows: seq<Row>, nameCol: string, row: Row)
    requires Cell(cols, row, IdColumn).Some? && Cell(cols, row, nameCol).Some?
    ensures (Cell(cols, row, IdColumn).value, Cell(cols, row, nameCol).value) in PresentPairs(cols, rows, nameCol)
            <==> exists j :: 0 <= j < |rows| && SameCells(cols, rows[j], row, nameCol)
  {
    var p := (Cell(cols, row, IdColumn).value, Cell(cols, row, nameCol).value);
    if exists j :: 0 <= j < |rows| && SameCells(cols, rows[j], row, nameCol) {
      var j :| 0 <= j < |rows| && SameCells(cols, rows[j], row, nameCol);
      assert Cell(cols, rows[j], IdColumn) == Some(p.0) && Cell(cols, rows[j], nameCol) == Some(p.1);
    }
  }

  /**
   * Adding one row to the end of the provider list: when it qualifies and no
   * earlier row has the same two cells, its id now maps to its stripped name;
   * otherwise the directory is unchanged.
   */
  lemma DirectoryStep(cols: seq<string>, rows: seq<Row>, nameCol: string)
    requires rows != []
    ensures var init := rows[..|rows| - 1];
            var last := rows[|rows| - 1];
            DirectoryOf(cols, rows, nameCol) ==
              if Qualifies(cols, last, nameCol) && !exists j :: 0 <= j < |init| && SameCells(cols, init[j], last, nameCol)
              then DirectoryOf(cols, init, nameCol)[RowId(cols, last).value := Strip(Cell(cols, last, nameCol).value)]
              else DirectoryOf(cols, init, nameCol)
  {
    var init := rows[..|rows| - 1];
    var last := rows[|rows| - 1];
    PresentStep(cols, rows, nameCol);
    if Cell(cols, last, IdColumn).Some? && Cell(cols, last, nameCol).Some? {
      PresentBefore(cols, init, nameCol, last);
      PairsStep(PresentPairs(cols, init, nameCol), (Cell(cols, last, IdColumn).value, Cell(cols, last, nameCol).value));
    }
  }

  /** A new qualifying row gives its id its stripped name. */
  lemma DirectoryStepSets(cols: seq<string>, rows: seq<Row>, nameCol: string)
    requires rows != [] && Qualifies(cols, rows[|rows| - 1], nameCol)
    requires !exists j :: 0 <= j < |rows| - 1 && SameCells(cols, rows[j], rows[|rows| - 1], nameCol)
    ensures var last := rows[|rows| - 1];
            && RowId(cols, last).value in DirectoryOf(cols, rows, nameCol)
            && DirectoryOf(cols, rows, nameCol)[RowId(cols, last).value] == Strip(Cell(cols, last, nameCol).value)
  {
    var init := rows[..|rows| - 1];
    assert forall j :: 0 <= j < |init| ==> init[j] == rows[j];
    DirectoryStep(cols, rows, nameCol);
  }

  /** A row leaves the entry of every id other than its own as it was. */
  lemma DirectoryStepKeeps(cols: seq<string>, rows: seq<Row>, nameCol: string, k: nat)
    requires rows != [] && (Qualifies(cols, rows[|rows| - 1], nameCol) ==> RowId(cols, rows[|rows| - 1]) != Some(k))
    ensures var before := DirectoryOf(cols, rows[..|rows| - 1], nameCol);
            && (k in DirectoryOf(cols, rows, nameCol) <==> k in before)
            && (k in before ==> DirectoryOf(cols, rows, nameCol)[k] == before[k])
  {
    DirectoryStep(cols, rows, nameCol);
  }

  /** A last row that repeats the two cells of an earlier row changes nothing. */
  lemma DirectoryStepRepeats(cols: seq<string>, rows: seq<Row>, nameCol: string, k: nat)
    requires k < |rows| - 1 && SameCells(cols, rows[k], rows[|rows| - 1], nameCol)
    ensures DirectoryOf(cols, rows, nameCol) == DirectoryOf(cols, rows[..|rows| - 1], nameCol)
  {
    var init := rows[..|rows| - 1];
    assert init[k] == rows[k];
    DirectoryStep(cols, rows, nameCol);
  }

  /**
   * Last row wins: a qualifying row whose two cells do not repeat an earlier
   * row gives its id its stripped name, provided every later qualifying row
   * with the same id repeats the two cells of some row before it. Such a
   * repeat is a duplicate and is dropped, so it does not change the winner.
   */
  lemma {:induction false} DirectoryLastRowWins(cols: seq<string>, rows: seq<Row>, nameCol: string, i: nat)
    requires i < |rows| && Qualifies(cols, rows[i], nameCol)
    requires !exists j :: 0 <= j < i && SameCells(cols, rows[j], rows[i], nameCol)
    requires forall j :: i < j < |rows| && Qualifies(cols, rows[j], nameCol) && RowId(cols, rows[j]) == RowId(cols, rows[i]) ==>
               exists k :: 0 <= k < j && SameCells(cols, rows[k], rows[j], nameCol)
    ensures RowId(cols, rows[i]).value in DirectoryOf(cols, rows, nameCol)
    ensures DirectoryOf(cols, rows, nameCol)[RowId(cols, rows[i]).value] == Strip(Cell(cols, rows[i], nameCol).value)
  {
    var n := |rows| - 1;
    if i < n {
      var init := rows[..n];
      assert forall j :: 0 <= j < |init| ==> init[j] == rows[j];
      DirectoryLastRowWins(cols, init, nameCol, i);
      if Qualifies(cols, rows[n], nameCol) && RowId(cols, rows[n]) == RowId(cols, rows[i]) {
        var k :| 0 <= k < n && SameCells(cols, rows[k], rows[n], nameCol);
        DirectoryStepRepeats(cols, rows, nameCol, k);
      } else {
        DirectoryStepKeeps(cols, rows, nameCol, RowId(cols, rows[i]).value);
      }
    } else {
      DirectoryStepSets(cols, rows, nameCol);
    }
  }

  /**
   * Duplicates are dropped before the last-wins step, so the winner for an
   * id is the name whose FIRST occurrence comes last: rows (1, A), (1, B),
   * (1, A) give 1 -> B, not the name on the last row.
   */
  lemma DuplicatesDroppedBeforeLastWins(ps: seq<(string, string)>)
    requires ps == [("1", "A"), ("1", "B"), ("1", "A")]
    ensures LastWins(StripNames(NumericIds(Dedup(ps)))) == map[1 := "B"]
  {
    var d := DedupExample(ps);
    var n := NumericExample(d);
    StripExample(n);
    LastWinsExample(n);
  }

  lemma StripExample(n: seq<(nat, string)>)
    requires n == [(1, "A"), (1, "B")]
    ensures StripNames(n) == n
  {
    var st := StripNames(n);
    forall i | 0 <= i < 2 ensures st[i] == n[i] {
      StripLetter(n[i].1);
    }
  }

  lemma LastWinsExample(n: seq<(nat, string)>)
    requires n == [(1, "A"), (1, "B")]
    ensures LastWins(n) == map[1 := "B"]
  {
    assert n[..1] == [(1, "A")];
    assert n[..1][..0] == [];
    assert LastWins(n[..1]) == map[1 := "A"];
    assert LastWins(n) == map[1 := "A"][1 := "B"];
  }

  lemma StripLetter(s: string)
    requires s == "A" || s == "B"
    ensures Strip(s) == s
  {
    assert !IsSpace(s[0]);
  }

  lemma DedupExample(ps: seq<(string, string)>) returns (d: seq<(string, string)>)
    requires ps == [("1", "A"), ("1", "B"), ("1", "A")]
    ensures d == Dedup(ps) == [("1", "A"), ("1", "B")]
  {
    assert ps[..2] == [("1", "A"), ("1", "B")];
    assert ps[..2][..1] == [("1", "A")];
    assert Dedup(ps[..2][..1]) == [("1", "A")];
    assert Dedup(ps[..2]) == [("1", "A"), ("1", "B")];
    d := Dedup(ps);
  }

  lemma NumericExample(d: seq<(string, string)>) returns (n: seq<(nat, string)>)
    requires d == [("1", "A"), ("1", "B")]
    ensures n == NumericIds(d) == [(1, "A"), (1, "B")]
  {
    assert ParseId("1") == Some(1) by {
      assert AllDigits("1");
      assert DigitsValue("1") == DigitsValue("") * 10 + 1;
    }
    assert NumericIds(d[..1]) == [(1, "A")];
    n := NumericIds(d);
  }
}
