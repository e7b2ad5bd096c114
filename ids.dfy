/**
 * Provider identifiers: parsing an id cell into an integer, and Python's
 * `sorted(set(ids))`, which every stage that hands out ids applies.
 */
module Ids {
  import opened Wrappers
  import opened Text

  /**
   * A provider id cell read as an integer. Only non-empty strings of decimal
   * digits are ids; anything else is what `pd.to_numeric(errors="coerce")`
   * turns into a missing value, and the row is dropped.
   */
  function ParseId(cell: string): (r: Option<nat>)
    ensures r.Some? <==> cell != [] && AllDigits(cell)
    ensures r.Some? ==> r.value == DigitsValue(cell)
  {
    if cell != [] && AllDigits(cell) then Some(DigitsValue(cell)) else None
  }

  /**
   * Leading zeros do not change which id a cell denotes: "007" and "7" are
   * both id 7, and a cell that is not a digit string stays one that is not.
   */
  lemma ParseIdIgnoresLeadingZeros(n: nat, cell: string)
    requires cell != []
    ensures ParseId(Zeros(n) + cell) == ParseId(cell)
  {
    var z := Zeros(n) + cell;
    if AllDigits(cell) {
      LeadingZerosValue(n, cell);
    } else {
      var i :| 0 <= i < |cell| && !IsDigit(cell[i]);
      assert z[n + i] == cell[i];
    }
  }

  /** Every element is smaller than every later one: sorted and free of duplicates. */
  predicate StrictlyAscending(s: seq<nat>) {
    forall i, j :: 0 <= i < j < |s| ==> s[i] < s[j]
  }

  /** `x` added to a strictly ascending sequence, keeping it strictly ascending. */
  function Insert(x: nat, s: seq<nat>): (r: seq<nat>)
    requires StrictlyAscending(s)
    ensures StrictlyAscending(r)
    ensures forall y :: y in r <==> y == x || y in s
  {
    if s == [] then [x]
    else if x < s[0] then [x] + s
    else if x == s[0] then s
    else
      var t := Insert(x, s[1..]);
      assert forall i :: 0 <= i < |t| ==> s[0] < t[i] by {
        forall i | 0 <= i < |t| ensures s[0] < t[i] {
          assert t[i] in t;
        }
      }
      [s[0]] + t
  }

  /** Python's `sorted(set(xs))`: the distinct elements of `xs` in ascending order. */
  function SortedDistinct(xs: seq<nat>): (r: seq<nat>)
    ensures StrictlyAscending(r)
    ensures forall y :: y in r <==> y in xs
  {
    if xs == [] then []
    else Insert(xs[|xs| - 1], SortedDistinct(xs[..|xs| - 1]))
  }

  /** The first element of a strictly ascending sequence is its least. */
  lemma HeadIsLeast(s: seq<nat>, y: nat)
    requires StrictlyAscending(s) && y in s
    ensures s[0] <= y
  {
    var j :| 0 <= j < |s| && s[j] == y;
    if j > 0 {
      assert s[0] < s[j];
    }
  }

  /** A strictly ascending sequence is determined by the values it holds. */
  lemma {:induction false} AscendingUnique(a: seq<nat>, b: seq<nat>)
    requires StrictlyAscending(a) && StrictlyAscending(b)
    requires forall y :: y in a <==> y in b
    ensures a == b
  {
    if a != [] {
      assert a[0] in b;
    }
    if b != [] {
      assert b[0] in a;
    }
    if a != [] && b != [] {
      HeadIsLeast(a, b[0]);
      HeadIsLeast(b, a[0]);
      forall y ensures y in a[1..] <==> y in b[1..] {
        if y in a[1..] {
          var j :| 1 <= j < |a| && a[j] == y;
          assert y != a[0] && y in a;
        }
        if y in b[1..] {
          var j :| 1 <= j < |b| && b[j] == y;
          assert y != b[0] && y in b;
        }
        if y in a && y != a[0] {
          var j :| 0 <= j < |a| && a[j] == y;
          assert a[1..][j - 1] == y;
        }
        if y in b && y != b[0] {
          var j :| 0 <= j < |b| && b[j] == y;
          assert b[1..][j - 1] == y;
        }
      }
      AscendingUnique(a[1..], b[1..]);
      assert a == [a[0]] + a[1..] && b == [b[0]] + b[1..];
    }
  }

  /** Sorting and deduplicating a list that already is strictly ascending returns it unchanged. */
  lemma SortedDistinctOfAscending(s: seq<nat>)
    requires StrictlyAscending(s)
    ensures SortedDistinct(s) == s
  {
    AscendingUnique(SortedDistinct(s), s);
  }

  /** `sorted(set(xs))` depends only on which values `xs` holds, not on their order or repetition. */
  lemma SortedDistinctOfSameValues(xs: seq<nat>, ys: seq<nat>)
    requires forall y :: y in xs <==> y in ys
    ensures SortedDistinct(xs) == SortedDistinct(ys)
  {
    AscendingUnique(SortedDistinct(xs), SortedDistinct(ys));
  }
}
