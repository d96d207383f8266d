/**
 * Locked-MANA aggregation of the address service.
 *
 * Two monthly lookups (MANA locked to districts, and MANA locked in total)
 * return rows of (month, mana). Each list is normalised into a
 * month-to-amount table by FillByMonth; the tables are then combined into
 * one locked-MANA figure: the non-district MANA locked in September and
 * October earns a 15% bonus, the non-district MANA locked in November,
 * December and January earns a 10% bonus (each window floored once), and
 * every district amount is added at face value.
 */
module AddressService {

  /** One row of a monthly locked-balance lookup. */
  datatype MonthlyRow = MonthlyRow(month: int, mana: int)

  /** A month-to-amount table, the object that fillByMonth builds. */
  type Table = map<int, int>

  /** The two bonus windows and their multipliers, in percent. */
  const BeforeNovemberMonths: seq<int> := [9, 10]
  const BeforeNovemberBonusPercent: int := 115
  const AfterNovemberMonths: seq<int> := [11, 12, 1]
  const AfterNovemberBonusPercent: int := 110

  predicate IsMonth(m: int)
  {
    1 <= m <= 12
  }

  /** The months whose non-district MANA earns a bonus. */
  predicate InBonusWindow(m: int)
  {
    m in BeforeNovemberMonths || m in AfterNovemberMonths
  }

  /** Every calendar month has an entry. */
  predicate Filled(t: Table)
  {
    forall m :: 1 <= m <= 12 ==> m in t
  }

  /** Some row of the lookup reports month `m`. */
  predicate HasRowFor(rows: seq<MonthlyRow>, m: int)
  {
    exists i :: 0 <= i < |rows| && rows[i].month == m
  }

  // ---------------------------------------------------------------------
  // fillByMonth
  // ---------------------------------------------------------------------

  /** The table with months 1..n all set to 0. */
  function ZerosUpTo(n: nat): (t: Table)
    ensures forall m :: m in t <==> 1 <= m <= n
    ensures forall m :: m in t ==> t[m] == 0
  {
    if n == 0 then map[] else ZerosUpTo(n - 1)[n := 0]
  }

  /** The table with months 1..12 all set to 0, where fillByMonth starts. */
  function ZeroTable(): (t: Table)
    ensures Filled(t)
    ensures forall m :: m in t <==> IsMonth(m)
    ensures forall m :: m in t ==> t[m] == 0
  {
    ZerosUpTo(12)
  }

  /**
   * The table fillByMonth builds: months 1..12 start at 0, then every row
   * in order sets its month to its mana, so a later row overwrites an
   * earlier one for the same month.
   */
  function FilledTable(rows: seq<MonthlyRow>): (t: Table)
    ensures Filled(t)
    ensures forall i :: 0 <= i < |rows| ==> rows[i].month in t
  {
    if rows == [] then ZeroTable()
    else
      var last := rows[|rows| - 1];
      FilledTable(rows[..|rows| - 1])[last.month := last.mana]
  }

  /** fillByMonth: build the zero table, then write every row into it. */
  method FillByMonth(rows: seq<MonthlyRow>) returns (groups: Table)
    ensures groups == FilledTable(rows)
    ensures Filled(groups)
  {
    groups := map[];
    for index := 0 to 12
      invariant groups == ZerosUpTo(index)
    {
      groups := groups[index + 1 := 0];
    }
    assert groups == FilledTable([]);
    for i := 0 to |rows|
      invariant groups == FilledTable(rows[..i])
    {
      assert rows[..i + 1][..i] == rows[..i];
      groups := groups[rows[i].month := rows[i].mana];
    }
    assert rows[..|rows|] == rows;
  }

  /** The table has exactly the twelve months plus every month some row reports. */
  lemma {:induction false} FilledTableKeys(rows: seq<MonthlyRow>, m: int)
    ensures m in FilledTable(rows) <==> IsMonth(m) || HasRowFor(rows, m)
  {
    if rows != [] {
      var init := rows[..|rows| - 1];
      FilledTableKeys(init, m);
      if HasRowFor(init, m) {
        var i :| 0 <= i < |init| && init[i].month == m;
        assert rows[i].month == m;
      }
      if HasRowFor(rows, m) && rows[|rows| - 1].month != m {
        var i :| 0 <= i < |rows| && rows[i].month == m;
        assert init[i].month == m;
      }
    }
  }

  /** A month 1..12 that no row reports stays 0. */
  lemma {:induction false} FilledTableDefaultsToZero(rows: seq<MonthlyRow>, m: int)
    requires IsMonth(m) && !HasRowFor(rows, m)
    ensures FilledTable(rows)[m] == 0
  {
    if rows != [] {
      var init := rows[..|rows| - 1];
      assert forall i :: 0 <= i < |init| ==> init[i] == rows[i];
      FilledTableDefaultsToZero(init, m);
    }
  }

  /**
   * A row that no later row overrides decides its month's entry: the entry
   * is that row's mana, not a sum of the rows for the month.
   */
  lemma {:induction false} FilledTableLastRowWins(rows: seq<MonthlyRow>, i: int)
    requires 0 <= i < |rows|
    requires forall j :: i < j < |rows| ==> rows[j].month != rows[i].month
    ensures FilledTable(rows)[rows[i].month] == rows[i].mana
  {
    if i < |rows| - 1 {
      var init := rows[..|rows| - 1];
      assert init[i] == rows[i];
      FilledTableLastRowWins(init, i);
    }
  }

  /** Two rows for the same month: the second replaces the first. */
  lemma RepeatedMonthOverwrites(month: int, first: int, second: int)
    ensures FilledTable([MonthlyRow(month, first), MonthlyRow(month, second)])[month] == second
  {
    FilledTableLastRowWins([MonthlyRow(month, first), MonthlyRow(month, second)], 1);
  }

  // ---------------------------------------------------------------------
  // Sum of a table's values (Object.values(...).reduce)
  // ---------------------------------------------------------------------

  lemma NonEmptyHasElement(s: set<int>)
    ensures s == {} || exists x :: x in s
  {
    if forall y :: y !in s {
      assert s == {};
    }
  }

  /** The least element of a non-empty set of integers. */
  function Least(s: set<int>): (k: int)
    requires s != {}
    ensures k in s && forall j :: j in s ==> k <= j
  {
    LeastExists(s);
    var k :| k in s && forall j :: j in s ==> k <= j; k
  }

  lemma {:induction false} LeastExists(s: set<int>)
    requires s != {}
    ensures exists k :: k in s && forall j :: j in s ==> k <= j
    decreases |s|
  {
    NonEmptyHasElement(s);
    var x :| x in s;
    var rest := s - {x};
    if rest == {} {
      forall j | j in s ensures x <= j {
        assert j !in rest;
      }
    } else {
      LeastExists(rest);
      var k :| k in rest && forall j :: j in rest ==> k <= j;
      var least := if x < k then x else k;
      forall j | j in s ensures least <= j {
        if j != x { assert j in rest; }
      }
      assert least in s;
    }
  }

  /**
   * The sum of every value of a table, taken in ascending key order: zero
   * for a table of zeros, never negative when no entry is.
   */
  function TableTotal(t: Table): (r: int)
    ensures (forall k :: k in t ==> t[k] == 0) ==> r == 0
    ensures (forall k :: k in t ==> t[k] >= 0) ==> r >= 0
    decreases |t.Keys|
  {
    if t.Keys == {} then 0
    else
      var k := Least(t.Keys);
      assert (t - {k}).Keys == t.Keys - {k};
      t[k] + TableTotal(t - {k})
  }

  /** Every entry of a table counts exactly once in its total, whatever its key. */
  lemma {:induction false} TableTotalRemove(t: Table, k: int)
    requires k in t
    ensures TableTotal(t) == t[k] + TableTotal(t - {k})
    decreases |t.Keys|
  {
    var l := Least(t.Keys);
    if l != k {
      var rest := t - {l};
      assert rest.Keys == t.Keys - {l};
      TableTotalRemove(rest, k);
      var without := t - {k};
      assert without.Keys == t.Keys - {k};
      assert l in without.Keys;
      var l2 := Least(without.Keys);
      assert l2 in t.Keys;
      assert l <= l2 && l2 <= l;
      assert without - {l} == rest - {k};
    }
  }

  /** Setting one entry moves the total by exactly the change in that entry. */
  lemma TableTotalUpdate(t: Table, k: int, v: int)
    ensures TableTotal(t[k := v]) == TableTotal(t) - (if k in t then t[k] else 0) + v
  {
    var u := t[k := v];
    TableTotalRemove(u, k);
    if k in t {
      TableTotalRemove(t, k);
      assert u - {k} == t - {k};
    } else {
      assert u - {k} == t;
    }
  }

  // ---------------------------------------------------------------------
  // calculateTotalForMonths
  // ---------------------------------------------------------------------

  /** Every listed month has an entry in the table. */
  predicate Covers(t: Table, months: seq<int>)
  {
    forall i :: 0 <= i < |months| ==> months[i] in t
  }

  /**
   * calculateTotalForMonths: a left-to-right running sum of
   * total[m] - districts[m] over the listed months, starting at 0. It
   * equals the listed total amounts minus the listed district amounts.
   */
  function TotalForMonths(districts: Table, total: Table, months: seq<int>): (r: int)
    requires Covers(districts, months) && Covers(total, months)
    ensures r == MonthsSum(total, months) - MonthsSum(districts, months)
  {
    if months == [] then 0
    else
      MonthsSumSnoc(total, months);
      MonthsSumSnoc(districts, months);
      var m := months[|months| - 1];
      TotalForMonths(districts, total, months[..|months| - 1]) + total[m] - districts[m]
  }

  /** The sum of a table's entries over the listed months (repeats count again). */
  function MonthsSum(t: Table, months: seq<int>): int
    requires Covers(t, months)
  {
    if months == [] then 0 else t[months[0]] + MonthsSum(t, months[1..])
  }

  lemma {:induction false} MonthsSumSnoc(t: Table, months: seq<int>)
    requires months != [] && Covers(t, months)
    ensures MonthsSum(t, months) == MonthsSum(t, months[..|months| - 1]) + t[months[|months| - 1]]
  {
    if |months| > 1 {
      assert months[1..][..|months[1..]| - 1] == months[..|months| - 1][1..];
      MonthsSumSnoc(t, months[1..]);
    }
  }

  /**
   * The running sum grows with every listed month's total - districts
   * difference; in particular it depends on no other month.
   */
  lemma {:induction false} TotalForMonthsMonotone(d: Table, t: Table, d': Table, t': Table, months: seq<int>)
    requires Covers(d, months) && Covers(t, months) && Covers(d', months) && Covers(t', months)
    requires forall i :: 0 <= i < |months| ==> t[months[i]] - d[months[i]] <= t'[months[i]] - d'[months[i]]
    ensures TotalForMonths(d, t, months) <= TotalForMonths(d', t', months)
  {
    if months != [] {
      TotalForMonthsMonotone(d, t, d', t', months[..|months| - 1]);
    }
  }

  /** Nothing clamps the running sum: districts above totals make it negative. */
  lemma TotalForMonthsCanBeNegative()
    ensures TotalForMonths(map[9 := 50], map[9 := 0], [9]) == -50
  {
  }

  // ---------------------------------------------------------------------
  // lockedMANABalanceOf
  // ---------------------------------------------------------------------

  /** An amount times a bonus in percent, rounded down to a whole MANA. */
  function ApplyBonus(amount: int, percent: int): (r: int)
    ensures r * 100 <= amount * percent < r * 100 + 100
  {
    amount * percent / 100
  }

  /** With a non-negative multiplier, a larger amount never gets a smaller bonus. */
  lemma ApplyBonusMonotone(a: int, b: int, percent: int)
    requires a <= b && 0 <= percent
    ensures ApplyBonus(a, percent) <= ApplyBonus(b, percent)
  {
    assert b * percent - a * percent == (b - a) * percent;
    assert (b - a) * percent >= 0;
  }

  /** Flooring a window sum once never gives less than flooring month by month. */
  lemma ApplyBonusSuperadditive(a: int, b: int, percent: int)
    ensures ApplyBonus(a + b, percent) >= ApplyBonus(a, percent) + ApplyBonus(b, percent)
  {
    assert (a + b) * percent == a * percent + b * percent;
  }

  lemma FilledCoversWindows(t: Table)
    requires Filled(t)
    ensures Covers(t, BeforeNovemberMonths) && Covers(t, AfterNovemberMonths)
  {
    assert IsMonth(9) && IsMonth(10) && IsMonth(11) && IsMonth(12) && IsMonth(1);
  }

  /** The two window sums of a filled table, month by month. */
  lemma WindowSums(t: Table)
    requires Filled(t)
    ensures Covers(t, BeforeNovemberMonths) && Covers(t, AfterNovemberMonths)
    ensures MonthsSum(t, BeforeNovemberMonths) == t[9] + t[10]
    ensures MonthsSum(t, AfterNovemberMonths) == t[11] + t[12] + t[1]
  {
    FilledCoversWindows(t);
    assert BeforeNovemberMonths[1..] == [10] && [10][1..] == [];
    assert MonthsSum(t, [10]) == t[10];
    assert AfterNovemberMonths[1..] == [12, 1] && [12, 1][1..] == [1] && [1][1..] == [];
    assert MonthsSum(t, [1]) == t[1];
    assert MonthsSum(t, [12, 1]) == t[12] + t[1];
  }

  /**
   * The arithmetic of lockedMANABalanceOf, once both tables are filled:
   * each window's differences are summed and floored once, and every
   * district entry is added.
   */
  function LockedManaBalance(districts: Table, total: Table): (r: int)
    requires Filled(districts) && Filled(total)
    ensures r ==
      (total[9] - districts[9] + total[10] - districts[10]) * 115 / 100
      + (total[11] - districts[11] + total[12] - districts[12] + total[1] - districts[1]) * 110 / 100
      + TableTotal(districts)
  {
    FilledCoversWindows(districts);
    FilledCoversWindows(total);
    WindowSums(districts);
    WindowSums(total);
    var beforeNovember := TotalForMonths(districts, total, BeforeNovemberMonths);
    var afterNovember := TotalForMonths(districts, total, AfterNovemberMonths);
    ApplyBonus(beforeNovember, BeforeNovemberBonusPercent)
      + ApplyBonus(afterNovember, AfterNovemberBonusPercent)
      + TableTotal(districts)
  }

  /**
   * lockedMANABalanceOf with its two lookups given as row lists: fill both
   * tables, then combine them.
   */
  method LockedManaBalanceOf(districtRows: seq<MonthlyRow>, totalRows: seq<MonthlyRow>)
    returns (balance: int)
    ensures balance == LockedManaBalance(FilledTable(districtRows), FilledTable(totalRows))
  {
    var districts := FillByMonth(districtRows);
    var total := FillByMonth(totalRows);
    balance := LockedManaBalance(districts, total);
  }

  /**
   * The balance never decreases when the total locked in bonus months
   * grows; total amounts of other months are never read.
   */
  lemma BalanceMonotoneInTotals(d: Table, t: Table, t': Table)
    requires Filled(d) && Filled(t) && Filled(t')
    requires forall m :: InBonusWindow(m) ==> t[m] <= t'[m]
    ensures LockedManaBalance(d, t) <= LockedManaBalance(d, t')
  {
    FilledCoversWindows(d);
    FilledCoversWindows(t);
    FilledCoversWindows(t');
    TotalForMonthsMonotone(d, t, d, t', BeforeNovemberMonths);
    TotalForMonthsMonotone(d, t, d, t', AfterNovemberMonths);
    ApplyBonusMonotone(TotalForMonths(d, t, BeforeNovemberMonths),
                       TotalForMonths(d, t', BeforeNovemberMonths), BeforeNovemberBonusPercent);
    ApplyBonusMonotone(TotalForMonths(d, t, AfterNovemberMonths),
                       TotalForMonths(d, t', AfterNovemberMonths), AfterNovemberBonusPercent);
  }

  /** Total amounts outside September..January (months 2..8 and any other key) never matter. */
  lemma TotalsOutsideWindowsIgnored(d: Table, t: Table, m: int, v: int)
    requires Filled(d) && Filled(t) && !InBonusWindow(m)
    ensures LockedManaBalance(d, t[m := v]) == LockedManaBalance(d, t)
  {
    BalanceMonotoneInTotals(d, t, t[m := v]);
    BalanceMonotoneInTotals(d, t[m := v], t);
  }

  /**
   * A district entry outside the bonus windows, under any key, counts once
   * at face value: changing it moves the balance by exactly the change.
   */
  lemma DistrictOutsideWindowsAtFaceValue(d: Table, t: Table, m: int, v: int)
    requires Filled(d) && Filled(t) && !InBonusWindow(m)
    ensures LockedManaBalance(d[m := v], t) == LockedManaBalance(d, t) - (if m in d then d[m] else 0) + v
  {
    var d' := d[m := v];
    FilledCoversWindows(d);
    FilledCoversWindows(d');
    FilledCoversWindows(t);
    TotalForMonthsMonotone(d, t, d', t, BeforeNovemberMonths);
    TotalForMonthsMonotone(d', t, d, t, BeforeNovemberMonths);
    TotalForMonthsMonotone(d, t, d', t, AfterNovemberMonths);
    TotalForMonthsMonotone(d', t, d, t, AfterNovemberMonths);
    TableTotalUpdate(d, m, v);
  }

  /** No district rows, totals Sep 100, Oct 200, Nov 300: 345 + 330 + 0 = 675. */
  lemma WorkedExample()
    ensures LockedManaBalance(FilledTable([]),
      FilledTable([MonthlyRow(9, 100), MonthlyRow(10, 200), MonthlyRow(11, 300)])) == 675
  {
    var d := FilledTable([]);
    var rows := [MonthlyRow(9, 100), MonthlyRow(10, 200), MonthlyRow(11, 300)];
    var t := FilledTable(rows);
    assert rows[..2] == [MonthlyRow(9, 100), MonthlyRow(10, 200)];
    assert rows[..2][..1] == [MonthlyRow(9, 100)];
    assert FilledTable(rows[..2]) == ZeroTable()[9 := 100][10 := 200];
    assert t == ZeroTable()[9 := 100][10 := 200][11 := 300];
    assert d[9] == 0 && d[10] == 0 && d[11] == 0 && d[12] == 0 && d[1] == 0;
    assert t[9] == 100 && t[10] == 200 && t[11] == 300 && t[12] == 0 && t[1] == 0;
  }

  /**
   * The window is floored once: Sep 10 and Oct 10 give 23, where flooring
   * each month would give 11 + 11.
   */
  lemma WindowFlooredOnce()
    ensures LockedManaBalance(FilledTable([]), FilledTable([MonthlyRow(9, 10), MonthlyRow(10, 10)])) == 23
    ensures ApplyBonus(10, BeforeNovemberBonusPercent) + ApplyBonus(10, BeforeNovemberBonusPercent) == 22
  {
    var d := FilledTable([]);
    var t := FilledTable([MonthlyRow(9, 10), MonthlyRow(10, 10)]);
    assert t == ZeroTable()[9 := 10][10 := 10];
    assert d[9] == 0 && d[10] == 0 && d[11] == 0 && d[12] == 0 && d[1] == 0;
    assert t[9] == 10 && t[10] == 10 && t[11] == 0 && t[12] == 0 && t[1] == 0;
  }

  /**
   * Nothing clamps a window: 50 locked to a September district with no
   * total gives floor(-57.5) + 50 = -8.
   */
  lemma DistrictsAboveTotalsGoNegative()
    ensures LockedManaBalance(FilledTable([MonthlyRow(9, 50)]), FilledTable([])) == -8
  {
    var d := FilledTable([MonthlyRow(9, 50)]);
    var t := FilledTable([]);
    assert d == ZeroTable()[9 := 50];
    assert d[9] == 50 && d[10] == 0 && d[11] == 0 && d[12] == 0 && d[1] == 0;
    assert t[9] == 0 && t[10] == 0 && t[11] == 0 && t[12] == 0 && t[1] == 0;
    TableTotalUpdate(ZeroTable(), 9, 50);
    assert ApplyBonus(-50, 115) == -58;
    assert ApplyBonus(0, 110) == 0;
  }
}
