/**
 Table sorting: the directed cell comparators and the stable sort that uses them.

 The number parser is the parameter `parse`. A column is numerically sortable exactly when no cell
 parses to NaN beside numbers that differ; then the stable sort has one possible result.
 */
module TableSort {
  import opened Wrappers
  import opened Ordering

  datatype SortType = Numeric | Date | Text | Status

  datatype Direction = Ascending | Descending

  datatype Num = NaN | NegInf | Fin(r: real) | PosInf

  // ----- Comparators

  function PartialCompare(x: Num, y: Num): Option<Order> {
    match (x, y)
    case (NaN, _) => None
    case (_, NaN) => None
    case (NegInf, NegInf) => Some(Equal)
    case (NegInf, _) => Some(Less)
    case (_, NegInf) => Some(Greater)
    case (PosInf, PosInf) => Some(Equal)
    case (PosInf, _) => Some(Greater)
    case (_, PosInf) => Some(Less)
    case (Fin(a), Fin(b)) => Some(if a < b then Less else if a > b then Greater else Equal)
  }

  type Parser = string -> Option<Num>

  /** Unparsed cells come below every number; two negative infinities are told apart by their text. */
  function CompareNumeric(parse: Parser, a: string, b: string): Order {
    match (parse(a), parse(b))
    case (Some(x), Some(y)) =>
      if x == NegInf && y == NegInf then CompareText(a, b) else PartialCompare(x, y).GetOr(Equal)
    case (Some(_), None) => Greater
    case (None, Some(_)) => Less
    case (None, None) => CompareText(a, b)
  }

  /** The comparison as documented: a cell that is no number counts as negative infinity, told apart by text. */
  function CompareAsDocumented(parse: Parser, a: string, b: string): Order {
    var x, y := parse(a).GetOr(NegInf), parse(b).GetOr(NegInf);
    if x == NegInf && y == NegInf then CompareText(a, b) else PartialCompare(x, y).GetOr(Equal)
  }

  /** Cell `a` is no number, and stands beside a NaN or beside a negative infinity that its text does not precede. */
  predicate Misplaced(parse: Parser, a: string, b: string) {
    parse(a).None? && (parse(b) == Some(NaN) || (parse(b) == Some(NegInf) && CompareText(a, b) != Less))
  }

  /** Two cells compare as documented exactly when neither is misplaced beside the other. */
  lemma ComparesAsDocumentedIff(parse: Parser, a: string, b: string)
    ensures CompareNumeric(parse, a, b) == CompareAsDocumented(parse, a, b) <==>
              !Misplaced(parse, a, b) && !Misplaced(parse, b, a)
  {
    CompareTextReverses(a, b);
  }

  /** A word beside `N/A`, which reads as negative infinity: documented to come after it, it comes before. */
  lemma WordBesideNotAvailable(parse: Parser)
    requires parse("abc") == None && parse("N/A") == Some(NegInf)
    ensures CompareAsDocumented(parse, "abc", "N/A") == Greater
    ensures CompareNumeric(parse, "abc", "N/A") == Less
  {
    assert "abc"[0] == 'a' && "N/A"[0] == 'N';
  }

  datatype KnownStatus = Fail | Partial | Pass {
    function Rank(): nat {
      match this
      case Fail => 0
      case Partial => 1
      case Pass => 2
    }
  }

  function KnownStatusOf(value: string): Option<KnownStatus> {
    if value == "fail" then Some(Fail)
    else if value == "partial" then Some(Partial)
    else if value == "pass" then Some(Pass)
    else None
  }

  function Directed(order: Order, direction: Direction): Order {
    if direction == Ascending then order else order.Reverse()
  }

  function CompareRank(a: KnownStatus, b: KnownStatus): Order {
    if a.Rank() < b.Rank() then Less else if a.Rank() > b.Rank() then Greater else Equal
  }

  function CompareStatus(a: string, b: string, direction: Direction): Order {
    match (KnownStatusOf(a), KnownStatusOf(b))
    case (Some(x), Some(y)) => Directed(CompareRank(x, y), direction)
    case (Some(_), None) => Less
    case (None, Some(_)) => Greater
    case (None, None) => Equal
  }

  function CompareCells(parse: Parser, a: string, b: string, sortType: SortType, direction: Direction): Order {
    match sortType
    case Status => CompareStatus(a, b, direction)
    case Numeric => Directed(CompareNumeric(parse, a, b), direction)
    case Date => Directed(CompareText(a, b), direction)
    case Text => Directed(CompareText(a, b), direction)
  }

  // ----- When the comparator is an order

  ghost predicate Transitive(parse: Parser, cells: set<string>, sortType: SortType, direction: Direction) {
    forall a, b, c | a in cells && b in cells && c in cells
      && CompareCells(parse, a, b, sortType, direction) != Greater
      && CompareCells(parse, b, c, sortType, direction) != Greater ::
      CompareCells(parse, a, c, sortType, direction) != Greater
  }

  /** Comparing the other way round gives the opposite order. */
  ghost predicate Consistent(parse: Parser, cells: set<string>, sortType: SortType, direction: Direction) {
    forall a, b | a in cells && b in cells ::
      CompareCells(parse, b, a, sortType, direction) == CompareCells(parse, a, b, sortType, direction).Reverse()
  }

  ghost predicate IsTotalPreorder(parse: Parser, cells: set<string>, sortType: SortType, direction: Direction) {
    Consistent(parse, cells, sortType, direction) && Transitive(parse, cells, sortType, direction)
  }

  /** Some cell is NaN and two other numbers of the column differ. */
  ghost predicate NaNAmongDifferentNumbers(parse: Parser, cells: set<string>) {
    exists n, a, b :: n in cells && a in cells && b in cells
      && parse(n) == Some(NaN) && IsNumber(parse, a) && IsNumber(parse, b) && CompareNumeric(parse, a, b) == Less
  }

  predicate IsNumber(parse: Parser, a: string) { parse(a).Some? && parse(a).value != NaN }

  lemma CompareNumericReverses(parse: Parser, a: string, b: string)
    ensures CompareNumeric(parse, b, a) == CompareNumeric(parse, a, b).Reverse()
  {
    CompareTextReverses(a, b);
  }

  lemma CompareNumericTransitive(parse: Parser, a: string, b: string, c: string)
    requires CompareNumeric(parse, a, b) != Greater && CompareNumeric(parse, b, c) != Greater
    requires parse(a) != Some(NaN) && parse(b) != Some(NaN) && parse(c) != Some(NaN)
    ensures CompareNumeric(parse, a, c) != Greater
  {
    if CompareText(a, b) != Greater && CompareText(b, c) != Greater { CompareTextTransitive(a, b, c); }
  }

  lemma NumericTransitive(parse: Parser, cells: set<string>, a: string, b: string, c: string)
    requires !NaNAmongDifferentNumbers(parse, cells) && a in cells && b in cells && c in cells
    requires CompareNumeric(parse, a, b) != Greater && CompareNumeric(parse, b, c) != Greater
    ensures CompareNumeric(parse, a, c) != Greater
  {
    if parse(a) == Some(NaN) || parse(b) == Some(NaN) || parse(c) == Some(NaN) {
      CompareNumericReverses(parse, a, c);
      assert parse(b) == Some(NaN) && IsNumber(parse, a) && IsNumber(parse, c) ==> CompareNumeric(parse, c, a) != Less;
    } else {
      CompareNumericTransitive(parse, a, b, c);
    }
  }

  /**
   The comparator is a total preorder in either direction for every sort type, except exactly for
   numeric columns in which a NaN stands among numbers that differ.
   */
  lemma TotalPreorderIff(parse: Parser, cells: set<string>, sortType: SortType, direction: Direction)
    ensures IsTotalPreorder(parse, cells, sortType, direction) <==>
              sortType != Numeric || !NaNAmongDifferentNumbers(parse, cells)
  {
    ComparesConsistently(parse, cells, sortType, direction);
    if sortType == Numeric && NaNAmongDifferentNumbers(parse, cells) {
      var n, a, b :| n in cells && a in cells && b in cells
        && parse(n) == Some(NaN) && IsNumber(parse, a) && IsNumber(parse, b) && CompareNumeric(parse, a, b) == Less;
      CompareNumericReverses(parse, a, b);
      var (low, high) := if direction == Ascending then (a, b) else (b, a);
      assert CompareCells(parse, high, n, sortType, direction) == Equal;
      assert CompareCells(parse, n, low, sortType, direction) == Equal;
      assert CompareCells(parse, high, low, sortType, direction) == Greater;
    } else {
      forall a, b, c | a in cells && b in cells && c in cells
        && CompareCells(parse, a, b, sortType, direction) != Greater
        && CompareCells(parse, b, c, sortType, direction) != Greater
        ensures CompareCells(parse, a, c, sortType, direction) != Greater
      {
        CellsTransitive(parse, cells, sortType, direction, a, b, c);
      }
    }
  }

  lemma ComparesConsistently(parse: Parser, cells: set<string>, sortType: SortType, direction: Direction)
    ensures Consistent(parse, cells, sortType, direction)
  {
    forall a, b | a in cells && b in cells
      ensures CompareCells(parse, b, a, sortType, direction) == CompareCells(parse, a, b, sortType, direction).Reverse()
    {
      CompareTextReverses(a, b);
      CompareNumericReverses(parse, a, b);
    }
  }

  lemma CellsTransitive(
      parse: Parser, cells: set<string>, sortType: SortType, direction: Direction, a: string, b: string, c: string)
    requires sortType != Numeric || !NaNAmongDifferentNumbers(parse, cells)
    requires a in cells && b in cells && c in cells
    requires CompareCells(parse, a, b, sortType, direction) != Greater
    requires CompareCells(parse, b, c, sortType, direction) != Greater
    ensures CompareCells(parse, a, c, sortType, direction) != Greater
  {
    match sortType
    case Status =>
    case Numeric =>
      CompareNumericReverses(parse, a, b);
      CompareNumericReverses(parse, b, c);
      CompareNumericReverses(parse, a, c);
      if direction == Ascending {
        NumericTransitive(parse, cells, a, b, c);
      } else {
        NumericTransitive(parse, cells, c, b, a);
      }
    case _ =>
      CompareTextReverses(a, b);
      CompareTextReverses(b, c);
      CompareTextReverses(a, c);
      if direction == Ascending { CompareTextTransitive(a, b, c); } else { CompareTextTransitive(c, b, a); }
  }

  // ----- The stable sort

  /** The state of a column sort. */
  datatype SortState = SortState(sortType: SortType, direction: Direction)

  function CompareRows(parse: Parser, column: seq<string>, s: SortState, i: nat, j: nat): Order
    requires i < |column| && j < |column|
  {
    CompareCells(parse, column[i], column[j], s.sortType, s.direction)
  }

  /** Row `i` of the column need not come after row `j`. */
  function RowLe(parse: Parser, column: seq<string>, s: SortState): (nat, nat) -> bool {
    (i: nat, j: nat) => i < |column| && j < |column| && CompareRows(parse, column, s, i, j) != Greater
  }

  /** Row `i` must come before row `j`: it is smaller, or equal and was before it. */
  predicate IsBefore(parse: Parser, column: seq<string>, s: SortState, i: nat, j: nat) {
    i < |column| && j < |column|
    && var order := CompareRows(parse, column, s, i, j); order == Less || (order == Equal && i < j)
  }

  function Before(parse: Parser, column: seq<string>, s: SortState): (nat, nat) -> bool {
    (i: nat, j: nat) => IsBefore(parse, column, s, i, j)
  }

  function BeforeOrSame(parse: Parser, column: seq<string>, s: SortState): (nat, nat) -> bool {
    (i: nat, j: nat) => i == j || IsBefore(parse, column, s, i, j)
  }

  function Rows(n: nat): (rows: seq<nat>) { seq(n, i => i) }

  /** The new row order: a stable sort of the rows by the directed comparator. */
  function ApplySort(parse: Parser, column: seq<string>, s: SortState): seq<nat> {
    InsertionSort(RowLe(parse, column, s), Rows(|column|))
  }

  /** `order` holds every row once, sorted by the comparator, with equal rows in their old order. */
  ghost predicate IsStableOrder(parse: Parser, column: seq<string>, s: SortState, order: seq<nat>) {
    Elements(order) == Elements(Rows(|column|)) && SortedBy(Before(parse, column, s), order)
  }

  ghost predicate Sortable(parse: Parser, column: seq<string>, s: SortState) {
    s.sortType == Numeric ==> !NaNAmongDifferentNumbers(parse, Elements(column))
  }

  lemma RowsCompareConsistently(parse: Parser, column: seq<string>, s: SortState, i: nat, j: nat)
    requires i < |column| && j < |column|
    ensures CompareRows(parse, column, s, j, i) == CompareRows(parse, column, s, i, j).Reverse()
  {
    ComparesConsistently(parse, {column[i], column[j]}, s.sortType, s.direction);
  }

  lemma RowsCompareTransitively(parse: Parser, column: seq<string>, s: SortState, i: nat, j: nat, k: nat)
    requires Sortable(parse, column, s) && i < |column| && j < |column| && k < |column|
    requires CompareRows(parse, column, s, i, j) != Greater && CompareRows(parse, column, s, j, k) != Greater
    ensures CompareRows(parse, column, s, i, k) != Greater
  {
    assert column[i] in Elements(column) && column[j] in Elements(column) && column[k] in Elements(column);
    CellsTransitive(parse, Elements(column), s.sortType, s.direction, column[i], column[j], column[k]);
  }

  lemma BeforeChains(parse: Parser, column: seq<string>, s: SortState, i: nat, j: nat, k: nat)
    requires Sortable(parse, column, s)
    requires IsBefore(parse, column, s, i, j) && IsBefore(parse, column, s, j, k)
    ensures IsBefore(parse, column, s, i, k)
  {
    RowsCompareTransitively(parse, column, s, i, j, k);
    if CompareRows(parse, column, s, i, k) == Equal {
      RowsCompareConsistently(parse, column, s, i, k);
      RowsCompareConsistently(parse, column, s, i, j);
      RowsCompareConsistently(parse, column, s, j, k);
      RowsCompareTransitively(parse, column, s, k, i, j);
      RowsCompareTransitively(parse, column, s, j, k, i);
    }
  }

  lemma BeforeIsAnOrder(parse: Parser, column: seq<string>, s: SortState)
    requires Sortable(parse, column, s)
    ensures TotalPreorder(BeforeOrSame(parse, column, s), Elements(Rows(|column|)))
    ensures Asymmetric(Before(parse, column, s), Elements(Rows(|column|)))
  {
    var rows, le := Elements(Rows(|column|)), BeforeOrSame(parse, column, s);
    forall i, j | i in rows && j in rows
      ensures le(i, j) || le(j, i)
      ensures !(Before(parse, column, s)(i, j) && Before(parse, column, s)(j, i))
    {
      RowsCompareConsistently(parse, column, s, i, j);
    }
    forall i, j, k | i in rows && j in rows && k in rows && le(i, j) && le(j, k) ensures le(i, k) {
      if i != j && j != k { BeforeChains(parse, column, s, i, j, k); }
    }
  }

  /** Inserting a row in front of later rows, comparing cells or also old positions, comes to the same. */
  lemma {:induction false} SortByCellsIsSortByRows(parse: Parser, column: seq<string>, s: SortState, rows: seq<nat>)
    requires SortedBy((i: nat, j: nat) => i < j, rows)
    requires forall i | i in rows :: i < |column|
    ensures InsertionSort(RowLe(parse, column, s), rows) == InsertionSort(BeforeOrSame(parse, column, s), rows)
  {
    if rows != [] {
      var later := rows[1..];
      assert rows[0] in rows;
      forall i | i in later ensures i in rows && rows[0] < i {
        var x :| 0 <= x < |later| && later[x] == i;
        assert rows[x + 1] == i;
      }
      SortByCellsIsSortByRows(parse, column, s, later);
      FirstRowInsertsAlike(parse, column, s, rows[0], InsertionSort(BeforeOrSame(parse, column, s), later), later);
    }
  }

  lemma FirstRowInsertsAlike(
      parse: Parser, column: seq<string>, s: SortState, first: nat, rest: seq<nat>, later: seq<nat>)
    requires first < |column| && forall i | i in later :: first < i < |column|
    requires multiset(rest) == multiset(later)
    ensures Insert(RowLe(parse, column, s), first, rest) == Insert(BeforeOrSame(parse, column, s), first, rest)
  {
    forall j | j in rest ensures first < j < |column| {
      assert j in multiset(rest) && j in multiset(later) && j in later;
    }
    InsertAgrees(RowLe(parse, column, s), BeforeOrSame(parse, column, s), first, rest);
  }

  lemma {:induction false} InsertAgrees<T>(f: (T, T) -> bool, g: (T, T) -> bool, x: T, xs: seq<T>)
    requires forall y | y in xs :: f(x, y) == g(x, y)
    ensures Insert(f, x, xs) == Insert(g, x, xs)
  {
    if xs != [] {
      assert xs[0] in xs;
      InsertAgrees(f, g, x, xs[1..]);
    }
  }

  lemma SortIsStable(parse: Parser, column: seq<string>, s: SortState)
    requires Sortable(parse, column, s)
    ensures IsStableOrder(parse, column, s, ApplySort(parse, column, s))
  {
    var rows, le := Rows(|column|), BeforeOrSame(parse, column, s);
    var sorted := ApplySort(parse, column, s);
    SortByCellsIsSortByRows(parse, column, s, rows);
    BeforeIsAnOrder(parse, column, s);
    InsertionSortSorted(le, rows);
    SortKeepsDistinct(le, rows);
    forall x, y | 0 <= x < y < |sorted| ensures Before(parse, column, s)(sorted[x], sorted[y]) {
      assert le(sorted[x], sorted[y]) && sorted[x] != sorted[y];
    }
  }

  /** On a sortable column the sort is stable, and it is the only stable order there is. */
  lemma SortIsStableAndUnique(parse: Parser, column: seq<string>, s: SortState, order: seq<nat>)
    requires Sortable(parse, column, s)
    ensures IsStableOrder(parse, column, s, order) <==> order == ApplySort(parse, column, s)
  {
    SortIsStable(parse, column, s);
    if IsStableOrder(parse, column, s, order) {
      BeforeIsAnOrder(parse, column, s);
      StrictlySortedUnique(Before(parse, column, s), order, ApplySort(parse, column, s));
    }
  }

  // ----- What a sorted column looks like

  /** Every row of the column stands in the sorted order exactly once. */
  lemma SortKeepsEveryRow(parse: Parser, column: seq<string>, s: SortState)
    ensures var order := ApplySort(parse, column, s);
            && |order| == |column| && (forall i: nat :: i in order <==> i < |column|)
            && forall x, y | 0 <= x < y < |order| :: order[x] != order[y]
  {
    var rows, order := Rows(|column|), ApplySort(parse, column, s);
    SameElements(order, rows);
    SortKeepsDistinct(RowLe(parse, column, s), rows);
    forall i: nat ensures i in order <==> i < |column| {
      assert i in order <==> i in Elements(rows);
      assert i < |column| ==> rows[i] == i;
    }
  }

  /** Date and text columns rise or fall lexicographically, and equal cells keep the order of their rows. */
  lemma TextColumnsFollowTheDirection(
      parse: Parser, column: seq<string>, sortType: SortType, direction: Direction, x: nat, y: nat)
    requires sortType == Date || sortType == Text
    requires x < y < |ApplySort(parse, column, SortState(sortType, direction))|
    ensures var order := ApplySort(parse, column, SortState(sortType, direction));
            var i, j := order[x], order[y];
            && i < |column| && j < |column|
            && (direction == Ascending ==> CompareText(column[i], column[j]) != Greater)
            && (direction == Descending ==> CompareText(column[i], column[j]) != Less)
            && (column[i] == column[j] ==> i < j)
  {
    var s := SortState(sortType, direction);
    SortIsStable(parse, column, s);
    var order := ApplySort(parse, column, s);
    assert Before(parse, column, s)(order[x], order[y]);
    CompareTextReverses(column[order[x]], column[order[y]]);
  }

  /** Numeric columns rise or fall by number, and rows that compare equal keep their order. */
  lemma NumericColumnsFollowTheDirection(parse: Parser, column: seq<string>, direction: Direction, x: nat, y: nat)
    requires !NaNAmongDifferentNumbers(parse, Elements(column))
    requires x < y < |ApplySort(parse, column, SortState(Numeric, direction))|
    ensures var order := ApplySort(parse, column, SortState(Numeric, direction));
            var i, j := order[x], order[y];
            && i < |column| && j < |column|
            && (direction == Ascending ==> CompareNumeric(parse, column[i], column[j]) != Greater)
            && (direction == Descending ==> CompareNumeric(parse, column[i], column[j]) != Less)
            && (CompareNumeric(parse, column[i], column[j]) == Equal ==> i < j)
  {
    var s := SortState(Numeric, direction);
    SortIsStable(parse, column, s);
    var order := ApplySort(parse, column, s);
    assert Before(parse, column, s)(order[x], order[y]);
  }

  /** Where a cell stands by number: no number, negative infinity, a finite number, positive infinity. */
  function Band(x: Option<Num>): nat {
    match x
    case None => 0
    case Some(NegInf) => 1
    case Some(Fin(_)) => 2
    case Some(PosInf) => 3
    case Some(NaN) => 4
  }

  /**
   The numeric comparison: by band; finite numbers by value; cells that are no number, and negative
   infinities, by text. A NaN compares equal to every number and greater than what is none.
   */
  lemma NumericIsLessIff(parse: Parser, a: string, b: string)
    ensures var x, y := parse(a), parse(b);
            CompareNumeric(parse, a, b) == Less <==>
              if x.None? || y.None? || (x.value != NaN && y.value != NaN) then
                || Band(x) < Band(y)
                || (Band(x) == Band(y) <= 1 && exists k :: SmallerFrom(a, b, k))
                || (Band(x) == Band(y) == 2 && x.value.r < y.value.r)
              else false
  {
    CompareTextIsLexicographic(a, b);
  }

  /** The cell holds one of the three known states. */
  predicate IsKnown(column: seq<string>, i: nat) { i < |column| && column[i] in {"fail", "partial", "pass"} }

  /** The state of cell `a` is less compliant than that of cell `b`. */
  predicate LessCompliant(a: string, b: string) {
    (a == "fail" && (b == "partial" || b == "pass")) || (a == "partial" && b == "pass")
  }

  /**
   In a sorted status column, in either direction, the indeterminate rows come last in their old
   order and the known rows come first, ordered by compliance in that direction.
   */
  lemma StatusColumnsKeepIndeterminateLast(parse: Parser, column: seq<string>, direction: Direction, x: nat, y: nat)
    requires x < y < |ApplySort(parse, column, SortState(Status, direction))|
    ensures var order := ApplySort(parse, column, SortState(Status, direction));
            var i, j := order[x], order[y];
            && i < |column| && j < |column|
            && (IsKnown(column, j) ==> IsKnown(column, i))
            && (!IsKnown(column, i) ==> i < j)
            && (IsKnown(column, i) && IsKnown(column, j) ==>
                  var (a, b) := if direction == Ascending then (column[i], column[j]) else (column[j], column[i]);
                  LessCompliant(a, b) || (a == b && i < j))
  {
    var s := SortState(Status, direction);
    SortIsStable(parse, column, s);
    var order := ApplySort(parse, column, s);
    assert Before(parse, column, s)(order[x], order[y]);
  }
}
