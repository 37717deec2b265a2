/** Fixed-width decimal text and the `DATE_FORMAT` strings of the monthly
    chart, with the fact the chart's `ORDER BY mes` relies on: for years of
    four digits, text order and calendar order agree. */
module MonthText {
  import opened Common
  import opened Dates

  function DigitChar(d: nat): char
    requires d < 10
  {
    ('0' as int + d) as char
  }

  /** `v` written with exactly `n` decimal digits, zero-padded on the left. */
  function Pad(v: nat, n: nat): (s: string)
    requires v < Pow10(n)
    ensures |s| == n
  {
    if n == 0 then [] else Pad(v / 10, n - 1) + [DigitChar(v % 10)]
  }

  /** Lexicographic order of strings by code unit. `DATE_FORMAT` returns
      text in the connection's collation; on keys made of ASCII digits and
      '-', every collation the application would use orders them this way. */
  predicate StrLess(a: string, b: string)
  {
    if a == [] then b != []
    else b != [] && (a[0] < b[0] || (a[0] == b[0] && StrLess(a[1..], b[1..])))
  }

  lemma {:induction false} StrLessIrreflexive(a: string)
    ensures !StrLess(a, a)
  {
    if a != [] {
      StrLessIrreflexive(a[1..]);
    }
  }

  /** Comparing two texts that start with prefixes of one length. */
  lemma {:induction false} StrLessConcat(a1: string, b1: string, a2: string, b2: string)
    requires |a1| == |a2|
    ensures StrLess(a1 + b1, a2 + b2) <==> (StrLess(a1, a2) || (a1 == a2 && StrLess(b1, b2)))
  {
    if a1 != [] {
      assert (a1 + b1)[0] == a1[0] && (a2 + b2)[0] == a2[0];
      assert (a1 + b1)[1..] == a1[1..] + b1;
      assert (a2 + b2)[1..] == a2[1..] + b2;
      StrLessConcat(a1[1..], b1, a2[1..], b2);
      if a1[0] == a2[0] && a1[1..] == a2[1..] {
        assert a1 == [a1[0]] + a1[1..] && a2 == [a2[0]] + a2[1..];
      }
    } else {
      assert a1 + b1 == b1 && a2 + b2 == b2;
    }
  }

  lemma DigitCharOrder(x: nat, y: nat)
    requires x < 10 && y < 10
    ensures DigitChar(x) < DigitChar(y) <==> x < y
    ensures DigitChar(x) == DigitChar(y) <==> x == y
  {
  }

  /** Texts that end in one digit after prefixes of one length compare by
      the prefixes first. */
  lemma LastDigitOrder(sa: string, sb: string, ta: string, tb: string, da: nat, db: nat)
    requires da < 10 && db < 10 && |ta| == |tb|
    requires sa == ta + [DigitChar(da)] && sb == tb + [DigitChar(db)]
    ensures StrLess(sa, sb) <==> (StrLess(ta, tb) || (ta == tb && da < db))
    ensures sa == sb <==> (ta == tb && da == db)
  {
    StrLessConcat(ta, [DigitChar(da)], tb, [DigitChar(db)]);
    assert [DigitChar(da)][1..] == [] && [DigitChar(db)][1..] == [];
    DigitCharOrder(da, db);
    if sa == sb {
      assert sa[..|ta|] == ta && sb[..|tb|] == tb;
      assert sa[|ta|] == DigitChar(da) && sb[|tb|] == DigitChar(db);
    }
  }

  /** Zero-padded numerals of one width compare as the numbers do, and
      equal numerals denote equal numbers. */
  lemma {:induction false} PadOrder(a: nat, b: nat, n: nat)
    requires a < Pow10(n) && b < Pow10(n)
    ensures StrLess(Pad(a, n), Pad(b, n)) <==> a < b
    ensures Pad(a, n) == Pad(b, n) <==> a == b
  {
    if n > 0 {
      PadOrder(a / 10, b / 10, n - 1);
      LastDigitOrder(Pad(a, n), Pad(b, n), Pad(a / 10, n - 1), Pad(b / 10, n - 1), a % 10, b % 10);
    }
  }

  /** `DATE_FORMAT(fecha, '%Y-%m')`. */
  function YearMonth(y: nat, m: nat): (s: string)
    requires y < 10000 && 1 <= m <= 12
    ensures |s| == 7 && s[4] == '-'
  {
    Pad(y, 4) + "-" + Pad(m, 2)
  }

  /** For four-digit years the `'%Y-%m'` text orders months as the
      calendar does, and different months get different texts. */
  lemma YearMonthOrder(y1: nat, m1: nat, y2: nat, m2: nat)
    requires y1 < 10000 && 1 <= m1 <= 12 && y2 < 10000 && 1 <= m2 <= 12
    ensures StrLess(YearMonth(y1, m1), YearMonth(y2, m2))
      <==> MonthIndex(y1, m1) < MonthIndex(y2, m2)
    ensures YearMonth(y1, m1) == YearMonth(y2, m2) <==> (y1 == y2 && m1 == m2)
  {
    assert Pow10(4) == 10000 && Pow10(2) == 100;
    var a1, a2 := Pad(y1, 4), Pad(y2, 4);
    var b1, b2 := "-" + Pad(m1, 2), "-" + Pad(m2, 2);
    assert YearMonth(y1, m1) == a1 + b1;
    assert YearMonth(y2, m2) == a2 + b2;
    StrLessConcat(a1, b1, a2, b2);
    StrLessConcat("-", Pad(m1, 2), "-", Pad(m2, 2));
    PadOrder(y1, y2, 4);
    PadOrder(m1, m2, 2);
    MonthIndexOrder(y1, m1, y2, m2);
    if YearMonth(y1, m1) == YearMonth(y2, m2) {
      assert (a1 + b1)[..4] == a1 && (a2 + b2)[..4] == a2;
      assert (a1 + b1)[5..] == Pad(m1, 2) && (a2 + b2)[5..] == Pad(m2, 2);
    }
  }

  const MonthNames: seq<string> := [
    "January", "February", "March", "April", "May", "June", "July",
    "August", "September", "October", "November", "December"]

  /** `DATE_FORMAT(fecha, '%M %Y')` with the default English locale. */
  function MonthLabel(y: nat, m: nat): string
    requires y < 10000 && 1 <= m <= 12
  {
    MonthNames[m - 1] + " " + Pad(y, 4)
  }
}

/** The spend statistics endpoints: each is one aggregate over the caller's
    rows of `facturas`, relative to the current date `today`. */
module Statistics {
  import opened Common
  import opened Dates
  import opened Invoices
  import opened MonthText
  import Seqs

  /** `SUM(coste)` over some rows, 0 for none (the `COALESCE(..., 0)`). */
  function SumCost(rs: seq<Receipt>): real
  {
    if rs == [] then 0.0 else SumCost(rs[..|rs| - 1]) + rs[|rs| - 1].coste
  }

  lemma {:induction false} SumCostAppend(a: seq<Receipt>, b: seq<Receipt>)
    ensures SumCost(a + b) == SumCost(a) + SumCost(b)
    decreases |b|
  {
    if b == [] {
      assert a + b == a;
    } else {
      var n := |b| - 1;
      assert (a + b)[..|a + b| - 1] == a + b[..n];
      SumCostAppend(a, b[..n]);
    }
  }

  /** A sum over rows whose costs lie in `[lo, hi]` lies between `n * lo`
      and `n * hi`. */
  lemma {:induction false} SumCostBounds(rs: seq<Receipt>, lo: real, hi: real)
    requires forall k :: 0 <= k < |rs| ==> lo <= rs[k].coste <= hi
    ensures |rs| as real * lo <= SumCost(rs) <= |rs| as real * hi
  {
    if rs != [] {
      var n := |rs| - 1;
      assert forall k :: 0 <= k < n ==> rs[..n][k] == rs[k];
      SumCostBounds(rs[..n], lo, hi);
      assert |rs| as real * lo == n as real * lo + lo;
      assert |rs| as real * hi == n as real * hi + hi;
    }
  }

  /** `SUM(coste)` and `COUNT(*)` of one query. */
  datatype Totals = Totals(gasto: real, facturas: nat)

  /** The sum and count over the rows satisfying `p`. */
  function Aggregate(rs: seq<Receipt>, p: Receipt -> bool): Totals
  {
    var sel := Seqs.Filter(p, rs);
    Totals(SumCost(sel), |sel|)
  }

  /** The aggregate is characterised row by row: no rows give zero, and
      one more row adds its cost and one to the count exactly when it is
      selected. */
  lemma AggregateSnoc(rs: seq<Receipt>, x: Receipt, p: Receipt -> bool)
    ensures Aggregate([], p) == Totals(0.0, 0)
    ensures var a := Aggregate(rs, p);
      Aggregate(rs + [x], p) == if p(x) then Totals(a.gasto + x.coste, a.facturas + 1) else a
  {
    Seqs.FilterAppend(p, rs, [x]);
    assert [x][1..] == [];
    var sel := Seqs.Filter(p, rs);
    if p(x) {
      assert Seqs.Filter(p, [x]) == [x];
      assert (sel + [x])[..|sel|] == sel;
    } else {
      assert Seqs.Filter(p, [x]) == [];
      assert sel + [] == sel;
    }
  }

  /** Rows not selected contribute nothing. */
  lemma {:induction false} AggregateNone(rs: seq<Receipt>, p: Receipt -> bool)
    requires forall k :: 0 <= k < |rs| ==> !p(rs[k])
    ensures Aggregate(rs, p) == Totals(0.0, 0)
    decreases |rs|
  {
    if rs != [] {
      var n := |rs| - 1;
      assert rs == rs[..n] + [rs[n]];
      AggregateNone(rs[..n], p);
      AggregateSnoc(rs[..n], rs[n], p);
    }
  }

  /** Aggregates by predicates that agree on every row are equal. */
  lemma AggregateCongruent(rs: seq<Receipt>, p: Receipt -> bool, q: Receipt -> bool)
    requires forall k :: 0 <= k < |rs| ==> p(rs[k]) == q(rs[k])
    ensures Aggregate(rs, p) == Aggregate(rs, q)
  {
    Seqs.FilterCongruent(p, q, rs);
  }

  predicate InMonthOf(today: Date, x: Receipt)
  {
    x.fecha.year == today.year && x.fecha.month == today.month
  }

  predicate OnOrAfter(lo: Date, x: Receipt)
  {
    DateAtMost(lo, x.fecha)
  }

  /** `fecha >= DATE_SUB(DATE_FORMAT(CURDATE(), '%Y-%m-01'), INTERVAL 1 MONTH)
      AND fecha < DATE_FORMAT(CURDATE(), '%Y-%m-01')`. */
  predicate InPreviousMonth(today: Date, x: Receipt)
    requires ValidDate(today)
  {
    DateAtMost(SubMonths(FirstOfMonth(today), 1), x.fecha) && DateLess(x.fecha, FirstOfMonth(today))
  }

  /** `GET /estadisticas/total`. */
  function TotalSpend(users: Users, email: string, rs: seq<Receipt>): (r: Result<Totals>)
    ensures email !in users <==> r == Err(UserNotFound)
  {
    if email !in users then Err(UserNotFound)
    else
      var uid := users[email];
      Ok(Aggregate(rs, (x: Receipt) => x.owner == uid))
  }

  /** The total grows by a receipt's cost and the count by one exactly when
      the receipt is the caller's; an empty table gives zero. */
  lemma TotalSpendSnoc(users: Users, email: string, rs: seq<Receipt>, x: Receipt)
    requires email in users
    ensures TotalSpend(users, email, []) == Ok(Totals(0.0, 0))
    ensures var t := TotalSpend(users, email, rs).value;
      TotalSpend(users, email, rs + [x]) ==
        Ok(if x.owner == users[email] then Totals(t.gasto + x.coste, t.facturas + 1) else t)
  {
    var uid := users[email];
    AggregateSnoc(rs, x, (y: Receipt) => y.owner == uid);
  }

  /** `GET /estadisticas/mes-actual`. */
  function CurrentMonthSpend(users: Users, email: string, rs: seq<Receipt>, today: Date): (r: Result<Totals>)
    ensures email !in users <==> r == Err(UserNotFound)
  {
    if email !in users then Err(UserNotFound)
    else
      var uid := users[email];
      Ok(Aggregate(rs, (x: Receipt) => x.owner == uid && InMonthOf(today, x)))
  }

  lemma CurrentMonthSpendSnoc(users: Users, email: string, rs: seq<Receipt>, x: Receipt, today: Date)
    requires email in users
    ensures CurrentMonthSpend(users, email, [], today) == Ok(Totals(0.0, 0))
    ensures var t := CurrentMonthSpend(users, email, rs, today).value;
      CurrentMonthSpend(users, email, rs + [x], today) ==
        Ok(if x.owner == users[email] && x.fecha.year == today.year && x.fecha.month == today.month
           then Totals(t.gasto + x.coste, t.facturas + 1) else t)
  {
    var uid := users[email];
    AggregateSnoc(rs, x, (y: Receipt) => y.owner == uid && InMonthOf(today, y));
  }

  /** `GET /estadisticas/anual`: receipts dated no earlier than twelve
      months before today. */
  function AnnualSpend(users: Users, email: string, rs: seq<Receipt>, today: Date): (r: Result<Totals>)
    requires ValidDate(today)
    ensures email !in users <==> r == Err(UserNotFound)
  {
    if email !in users then Err(UserNotFound)
    else
      var uid := users[email];
      var lo := SubMonths(today, 12);
      Ok(Aggregate(rs, (x: Receipt) => x.owner == uid && OnOrAfter(lo, x)))
  }

  lemma AnnualSpendSnoc(users: Users, email: string, rs: seq<Receipt>, x: Receipt, today: Date)
    requires email in users && ValidDate(today)
    ensures AnnualSpend(users, email, [], today) == Ok(Totals(0.0, 0))
    ensures var t := AnnualSpend(users, email, rs, today).value;
      AnnualSpend(users, email, rs + [x], today) ==
        Ok(if x.owner == users[email] && DateAtMost(SubMonths(today, 12), x.fecha)
           then Totals(t.gasto + x.coste, t.facturas + 1) else t)
  {
    var uid := users[email];
    var lo := SubMonths(today, 12);
    AggregateSnoc(rs, x, (y: Receipt) => y.owner == uid && OnOrAfter(lo, y));
  }

  /** Twelve months back is the same month of the year before, on the same
      day or, from 29 February, on 28 February. */
  lemma TwelveMonthsBack(today: Date)
    requires ValidDate(today)
    ensures var lo := SubMonths(today, 12);
      && lo.year == today.year - 1 && lo.month == today.month
      && (lo.day == today.day || (today.month == 2 && today.day == 29 && lo.day == 28))
  {
    var lo := SubMonths(today, 12);
    assert MonthIndex(lo.year, lo.month) == MonthIndex(today.year - 1, today.month);
    MonthIndexInjective(lo.year, lo.month, today.year - 1, today.month);
    if today.month == 2 && IsLeapYear(today.year) {
      assert !IsLeapYear(today.year - 1) by {
        assert (today.year - 1) % 4 == 3;
      }
    }
  }

  // ---- grouping by calendar month --------------------------------------

  /** The month of a receipt, as its month index. */
  function MonthOf(x: Receipt): int
  {
    MonthIndex(x.fecha.year, x.fecha.month)
  }

  /** One group of a `GROUP BY` year and month. */
  datatype MonthRow = MonthRow(key: int, gasto: real, facturas: nat)

  predicate Ascending(rows: seq<MonthRow>)
  {
    forall i, j :: 0 <= i < j < |rows| ==> rows[i].key < rows[j].key
  }

  predicate NonEmptyGroups(rows: seq<MonthRow>)
  {
    forall i :: 0 <= i < |rows| ==> rows[i].facturas >= 1
  }

  function Keys(rows: seq<MonthRow>): set<int>
  {
    set i | 0 <= i < |rows| :: rows[i].key
  }

  /** The group of month `k`, or zero when there is none. */
  function Lookup(rows: seq<MonthRow>, k: int): Totals
  {
    if rows == [] then Totals(0.0, 0)
    else if rows[0].key == k then Totals(rows[0].gasto, rows[0].facturas)
    else Lookup(rows[1..], k)
  }

  function SumRows(rows: seq<MonthRow>): real
  {
    if rows == [] then 0.0 else rows[0].gasto + SumRows(rows[1..])
  }

  function CountRows(rows: seq<MonthRow>): nat
  {
    if rows == [] then 0 else rows[0].facturas + CountRows(rows[1..])
  }

  /** Adds one receipt of month `k` and cost `c` to groups kept in
      ascending month order. */
  function AddToRows(rows: seq<MonthRow>, k: int, c: real): seq<MonthRow>
  {
    if rows == [] then [MonthRow(k, c, 1)]
    else if rows[0].key == k then
      [MonthRow(k, rows[0].gasto + c, rows[0].facturas + 1)] + rows[1..]
    else if k < rows[0].key then [MonthRow(k, c, 1)] + rows
    else [rows[0]] + AddToRows(rows[1..], k, c)
  }

  /** The groups of some receipts, in ascending month order. */
  function GroupByMonth(rs: seq<Receipt>): seq<MonthRow>
  {
    if rs == [] then []
    else
      var n := |rs| - 1;
      AddToRows(GroupByMonth(rs[..n]), MonthOf(rs[n]), rs[n].coste)
  }

  lemma KeysCons(r: MonthRow, rows: seq<MonthRow>)
    ensures Keys([r] + rows) == {r.key} + Keys(rows)
  {
    var s := [r] + rows;
    forall x | x in Keys(s) ensures x in {r.key} + Keys(rows) {
      var i :| 0 <= i < |s| && s[i].key == x;
      if i > 0 {
        assert s[i] == rows[i - 1];
      }
    }
    assert s[0].key == r.key;
    forall x | x in Keys(rows) ensures x in Keys(s) {
      var i :| 0 <= i < |rows| && rows[i].key == x;
      assert s[i + 1] == rows[i];
    }
  }

  lemma {:induction false} AddKeys(rows: seq<MonthRow>, k: int, c: real)
    ensures Keys(AddToRows(rows, k, c)) == Keys(rows) + {k}
  {
    var r := AddToRows(rows, k, c);
    if rows == [] {
      KeysCons(MonthRow(k, c, 1), []);
      assert r == [MonthRow(k, c, 1)] + [];
    } else if rows[0].key == k {
      KeysCons(rows[0], rows[1..]);
      KeysCons(r[0], rows[1..]);
      assert rows == [rows[0]] + rows[1..];
      assert r == [r[0]] + rows[1..];
    } else if k < rows[0].key {
      KeysCons(MonthRow(k, c, 1), rows);
    } else {
      AddKeys(rows[1..], k, c);
      KeysCons(rows[0], AddToRows(rows[1..], k, c));
      KeysCons(rows[0], rows[1..]);
      assert rows == [rows[0]] + rows[1..];
      assert r == [rows[0]] + AddToRows(rows[1..], k, c);
    }
  }

  lemma AscendingCons(x: MonthRow, rest: seq<MonthRow>)
    requires Ascending(rest)
    requires forall j :: 0 <= j < |rest| ==> x.key < rest[j].key
    ensures Ascending([x] + rest)
  {
    var r := [x] + rest;
    forall i, j | 0 <= i < j < |r| ensures r[i].key < r[j].key {
      assert r[j] == rest[j - 1];
      if i > 0 {
        assert r[i] == rest[i - 1];
      }
    }
  }

  lemma {:induction false} AddKeepsAscending(rows: seq<MonthRow>, k: int, c: real)
    requires Ascending(rows)
    ensures Ascending(AddToRows(rows, k, c))
  {
    if rows == [] {
    } else if rows[0].key == k {
      AscendingCons(MonthRow(k, rows[0].gasto + c, rows[0].facturas + 1), rows[1..]);
    } else if k < rows[0].key {
      AscendingCons(MonthRow(k, c, 1), rows);
    } else {
      var rest := AddToRows(rows[1..], k, c);
      AddKeepsAscending(rows[1..], k, c);
      AddKeys(rows[1..], k, c);
      KeysCons(rows[0], rows[1..]);
      assert rows == [rows[0]] + rows[1..];
      forall j | 0 <= j < |rest| ensures rows[0].key < rest[j].key {
        assert rest[j].key in Keys(rest);
      }
      AscendingCons(rows[0], rest);
    }
  }

  lemma {:induction false} AddKeepsNonEmpty(rows: seq<MonthRow>, k: int, c: real)
    requires NonEmptyGroups(rows)
    ensures NonEmptyGroups(AddToRows(rows, k, c))
  {
    if rows != [] && rows[0].key != k && k >= rows[0].key {
      AddKeepsNonEmpty(rows[1..], k, c);
    }
  }

  lemma {:induction false} LookupAbsent(rows: seq<MonthRow>, k: int)
    requires k !in Keys(rows)
    ensures Lookup(rows, k) == Totals(0.0, 0)
  {
    if rows != [] {
      KeysCons(rows[0], rows[1..]);
      assert rows == [rows[0]] + rows[1..];
      LookupAbsent(rows[1..], k);
    }
  }

  lemma {:induction false} AddLookup(rows: seq<MonthRow>, k: int, c: real, q: int)
    requires Ascending(rows)
    ensures var l := Lookup(rows, q);
      Lookup(AddToRows(rows, k, c), q) == if q == k then Totals(l.gasto + c, l.facturas + 1) else l
  {
    if rows == [] {
    } else if rows[0].key == k {
    } else if k < rows[0].key {
      if q == k {
        forall j | 0 <= j < |rows| ensures rows[j].key != k {
        }
        LookupAbsent(rows, k);
      }
    } else {
      AddLookup(rows[1..], k, c, q);
    }
  }

  lemma {:induction false} AddSums(rows: seq<MonthRow>, k: int, c: real)
    ensures SumRows(AddToRows(rows, k, c)) == SumRows(rows) + c
    ensures CountRows(AddToRows(rows, k, c)) == CountRows(rows) + 1
  {
    if rows != [] && rows[0].key != k && k >= rows[0].key {
      AddSums(rows[1..], k, c);
    }
  }

  /** The groups are in strictly ascending month order, and none is empty. */
  lemma {:induction false} GroupShape(rs: seq<Receipt>)
    ensures Ascending(GroupByMonth(rs)) && NonEmptyGroups(GroupByMonth(rs))
    decreases |rs|
  {
    if rs != [] {
      var n := |rs| - 1;
      GroupShape(rs[..n]);
      AddKeepsAscending(GroupByMonth(rs[..n]), MonthOf(rs[n]), rs[n].coste);
      AddKeepsNonEmpty(GroupByMonth(rs[..n]), MonthOf(rs[n]), rs[n].coste);
    }
  }

  /** There is one group per month that has receipts. */
  lemma {:induction false} GroupKeys(rs: seq<Receipt>)
    ensures Keys(GroupByMonth(rs)) == set x | x in rs :: MonthOf(x)
    decreases |rs|
  {
    if rs != [] {
      var n := |rs| - 1;
      GroupShape(rs[..n]);
      GroupKeys(rs[..n]);
      AddKeys(GroupByMonth(rs[..n]), MonthOf(rs[n]), rs[n].coste);
      assert rs == rs[..n] + [rs[n]];
      var lhs := set x | x in rs :: MonthOf(x);
      var rhs := (set x | x in rs[..n] :: MonthOf(x)) + {MonthOf(rs[n])};
      forall y | y in lhs ensures y in rhs {
        var x :| x in rs && MonthOf(x) == y;
        if x != rs[n] {
          assert x in rs[..n];
        }
      }
    }
  }

  /** Each group holds the sum and count of exactly its month's receipts. */
  lemma {:induction false} GroupTotals(rs: seq<Receipt>, k: int)
    ensures Lookup(GroupByMonth(rs), k) == Aggregate(rs, (x: Receipt) => MonthOf(x) == k)
    decreases |rs|
  {
    var p := (x: Receipt) => MonthOf(x) == k;
    if rs == [] {
      AggregateSnoc(rs, Receipt(0, 0, "", 0.0, Date(0, 1, 1), Time(0, 0, 0), "", None), p);
    } else {
      var n := |rs| - 1;
      GroupShape(rs[..n]);
      GroupTotals(rs[..n], k);
      AddLookup(GroupByMonth(rs[..n]), MonthOf(rs[n]), rs[n].coste, k);
      AggregateSnoc(rs[..n], rs[n], p);
      assert rs == rs[..n] + [rs[n]];
    }
  }

  /** Across the groups, the sums add up to the sum of all receipts and the
      counts to their number. */
  lemma {:induction false} GroupSums(rs: seq<Receipt>)
    ensures SumRows(GroupByMonth(rs)) == SumCost(rs)
    ensures CountRows(GroupByMonth(rs)) == |rs|
    decreases |rs|
  {
    if rs != [] {
      var n := |rs| - 1;
      GroupSums(rs[..n]);
      AddSums(GroupByMonth(rs[..n]), MonthOf(rs[n]), rs[n].coste);
    }
  }

  /** Ascending groups have distinct months, so there are as many groups as
      months. */
  lemma {:induction false} AscendingKeyCount(rows: seq<MonthRow>)
    requires Ascending(rows)
    ensures |Keys(rows)| == |rows|
  {
    if rows != [] {
      KeysCons(rows[0], rows[1..]);
      assert rows == [rows[0]] + rows[1..];
      AscendingKeyCount(rows[1..]);
      assert rows[0].key !in Keys(rows[1..]);
    }
  }

  /** The receipts of `uid` dated no earlier than six months before today. */
  function LastSixMonths(rs: seq<Receipt>, uid: nat, today: Date): seq<Receipt>
    requires ValidDate(today)
  {
    var lo := SubMonths(today, 6);
    Seqs.Filter((x: Receipt) => x.owner == uid && OnOrAfter(lo, x), rs)
  }

  /** `GET /estadisticas/promedio-mensual`: the mean over the months that
      have receipts in the window of their monthly sums. */
  function MonthlyAverage(users: Users, email: string, rs: seq<Receipt>, today: Date): (r: Result<real>)
    requires ValidDate(today)
    ensures email !in users <==> r == Err(UserNotFound)
  {
    if email !in users then Err(UserNotFound)
    else
      var groups := GroupByMonth(LastSixMonths(rs, users[email], today));
      Ok(if groups == [] then 0.0 else SumRows(groups) / |groups| as real)
  }

  /** The average is the window's total divided by the number of distinct
      months with receipts; months without receipts do not count, and no
      receipts give 0. */
  lemma MonthlyAverageMeaning(users: Users, email: string, rs: seq<Receipt>, today: Date)
    requires email in users && ValidDate(today)
    ensures var w := LastSixMonths(rs, users[email], today);
      var months := set x | x in w :: MonthOf(x);
      && (months == {} <==> w == [])
      && MonthlyAverage(users, email, rs, today)
           == Ok(if months == {} then 0.0 else SumCost(w) / |months| as real)
  {
    var w := LastSixMonths(rs, users[email], today);
    var g := GroupByMonth(w);
    GroupShape(w);
    GroupKeys(w);
    GroupSums(w);
    AscendingKeyCount(g);
    if w != [] {
      assert MonthOf(w[0]) in Keys(g);
    }
    if g == [] {
      assert Keys(g) == {};
    }
  }

  /** One row of `GET /estadisticas/por-mes`. */
  datatype MonthlySpend = MonthlySpend(mes: string, mesNombre: string, gasto: real, numFacturas: nat)

  /** Month indices of years 0 to 9999, the range of `DATE`. */
  predicate FourDigitKey(k: int)
  {
    0 <= k < 120000
  }

  predicate FourDigitYears(rs: seq<Receipt>)
  {
    forall k :: 0 <= k < |rs| ==> 0 <= rs[k].fecha.year < 10000 && 1 <= rs[k].fecha.month <= 12
  }

  predicate FourDigitRows(g: seq<MonthRow>)
  {
    forall i :: 0 <= i < |g| ==> FourDigitKey(g[i].key)
  }

  function RowOf(g: MonthRow): MonthlySpend
    requires FourDigitKey(g.key)
  {
    MonthlySpend(YearMonth(g.key / 12, g.key % 12 + 1), MonthLabel(g.key / 12, g.key % 12 + 1),
      g.gasto, g.facturas)
  }

  /** The chart rows of some groups, one per group and in the same order. */
  function Chart(g: seq<MonthRow>): (out: seq<MonthlySpend>)
    requires FourDigitRows(g)
    ensures |out| == |g|
  {
    seq(|g|, i requires 0 <= i < |g| => RowOf(g[i]))
  }

  /** `GET /estadisticas/por-mes`: one row per month of the six-month
      window that has receipts, in `ORDER BY mes ASC`. */
  function SpendByMonth(users: Users, email: string, rs: seq<Receipt>, today: Date): (r: Result<seq<MonthlySpend>>)
    requires ValidDate(today)
    requires FourDigitYears(rs)
    ensures email !in users <==> r == Err(UserNotFound)
  {
    if email !in users then Err(UserNotFound)
    else
      var w := LastSixMonths(rs, users[email], today);
      WindowFourDigit(rs, users[email], today);
      Ok(Chart(GroupByMonth(w)))
  }

  lemma WindowFourDigit(rs: seq<Receipt>, uid: nat, today: Date)
    requires ValidDate(today) && FourDigitYears(rs)
    ensures FourDigitYears(LastSixMonths(rs, uid, today))
    ensures FourDigitRows(GroupByMonth(LastSixMonths(rs, uid, today)))
  {
    var w := LastSixMonths(rs, uid, today);
    forall k | 0 <= k < |w| ensures 0 <= w[k].fecha.year < 10000 && 1 <= w[k].fecha.month <= 12 {
      assert w[k] in w;
    }
    GroupKeysInRange(w);
  }

  lemma GroupKeysInRange(w: seq<Receipt>)
    requires FourDigitYears(w)
    ensures FourDigitRows(GroupByMonth(w))
  {
    var g := GroupByMonth(w);
    GroupKeys(w);
    forall i | 0 <= i < |g| ensures FourDigitKey(g[i].key) {
      assert g[i].key in Keys(g);
      var x :| x in w && MonthOf(x) == g[i].key;
      var k :| 0 <= k < |w| && w[k] == x;
    }
  }

  /** A month index of a four-digit year decodes back to its year and month. */
  lemma KeyDecode(k: int)
    requires FourDigitKey(k)
    ensures MonthIndex(k / 12, k % 12 + 1) == k
  {
  }

  /** Ascending groups give strictly ascending `mes` texts. */
  lemma ChartOrdered(g: seq<MonthRow>, i: nat, j: nat)
    requires FourDigitRows(g) && Ascending(g) && i < j < |g|
    ensures StrLess(Chart(g)[i].mes, Chart(g)[j].mes)
  {
    KeyDecode(g[i].key);
    KeyDecode(g[j].key);
    YearMonthOrder(g[i].key / 12, g[i].key % 12 + 1, g[j].key / 12, g[j].key % 12 + 1);
  }

  /** The chart row of text `YearMonth(y, m)` is the group of that month. */
  lemma ChartRowMonth(g: seq<MonthRow>, i: nat, y: nat, m: nat)
    requires FourDigitRows(g) && i < |g| && y < 10000 && 1 <= m <= 12
    ensures Chart(g)[i].mes == YearMonth(y, m) <==> g[i].key == MonthIndex(y, m)
  {
    KeyDecode(g[i].key);
    YearMonthOrder(g[i].key / 12, g[i].key % 12 + 1, y, m);
    if g[i].key == MonthIndex(y, m) {
      MonthIndexInjective(g[i].key / 12, g[i].key % 12 + 1, y, m);
    }
  }

  /** The rows' `mes` texts are strictly ascending and no row is empty. */
  lemma SpendByMonthOrdered(users: Users, email: string, rs: seq<Receipt>, today: Date)
    requires email in users && ValidDate(today) && FourDigitYears(rs)
    ensures var out := SpendByMonth(users, email, rs, today).value;
      && (forall i, j :: 0 <= i < j < |out| ==> StrLess(out[i].mes, out[j].mes))
      && (forall i :: 0 <= i < |out| ==> out[i].numFacturas >= 1)
  {
    var w := LastSixMonths(rs, users[email], today);
    var g := GroupByMonth(w);
    WindowFourDigit(rs, users[email], today);
    GroupShape(w);
    forall i, j | 0 <= i < j < |g| ensures StrLess(Chart(g)[i].mes, Chart(g)[j].mes) {
      ChartOrdered(g, i, j);
    }
  }

  /** A chart has a row for a month exactly when its groups hold that month. */
  lemma ChartHasMonth(g: seq<MonthRow>, y: nat, m: nat)
    requires FourDigitRows(g) && y < 10000 && 1 <= m <= 12
    ensures (exists i :: 0 <= i < |Chart(g)| && Chart(g)[i].mes == YearMonth(y, m))
      <==> MonthIndex(y, m) in Keys(g)
  {
    if exists i :: 0 <= i < |Chart(g)| && Chart(g)[i].mes == YearMonth(y, m) {
      var i :| 0 <= i < |Chart(g)| && Chart(g)[i].mes == YearMonth(y, m);
      ChartRowMonth(g, i, y, m);
    }
    if MonthIndex(y, m) in Keys(g) {
      var i :| 0 <= i < |g| && g[i].key == MonthIndex(y, m);
      ChartRowMonth(g, i, y, m);
    }
  }

  /** Some receipt has a month index exactly when one has that year and month. */
  lemma MonthIndexPresent(w: seq<Receipt>, y: nat, m: nat)
    requires FourDigitYears(w) && 1 <= m <= 12
    ensures MonthIndex(y, m) in (set x | x in w :: MonthOf(x))
      <==> (exists x :: x in w && x.fecha.year == y && x.fecha.month == m)
  {
    if MonthIndex(y, m) in (set x | x in w :: MonthOf(x)) {
      var x :| x in w && MonthOf(x) == MonthIndex(y, m);
      var k :| 0 <= k < |w| && w[k] == x;
      MonthIndexInjective(x.fecha.year, x.fecha.month, y, m);
    }
  }

  /** There is a row for a month exactly when the window has a receipt of
      that month. */
  lemma SpendByMonthCovers(users: Users, email: string, rs: seq<Receipt>, today: Date, y: nat, m: nat)
    requires email in users && ValidDate(today) && FourDigitYears(rs)
    requires y < 10000 && 1 <= m <= 12
    ensures var out := SpendByMonth(users, email, rs, today).value;
      var w := LastSixMonths(rs, users[email], today);
      (exists i :: 0 <= i < |out| && out[i].mes == YearMonth(y, m))
      <==> (exists x :: x in w && x.fecha.year == y && x.fecha.month == m)
  {
    var w := LastSixMonths(rs, users[email], today);
    WindowFourDigit(rs, users[email], today);
    GroupKeys(w);
    ChartHasMonth(GroupByMonth(w), y, m);
    MonthIndexPresent(w, y, m);
    assert SpendByMonth(users, email, rs, today).value == Chart(GroupByMonth(w));
  }

  /** Each row holds the sum and count of its month's receipts in the
      window. */
  lemma SpendByMonthTotals(users: Users, email: string, rs: seq<Receipt>, today: Date, i: nat, y: nat, m: nat)
    requires email in users && ValidDate(today) && FourDigitYears(rs)
    requires y < 10000 && 1 <= m <= 12
    requires i < |SpendByMonth(users, email, rs, today).value|
    requires SpendByMonth(users, email, rs, today).value[i].mes == YearMonth(y, m)
    ensures var out := SpendByMonth(users, email, rs, today).value;
      var w := LastSixMonths(rs, users[email], today);
      Totals(out[i].gasto, out[i].numFacturas)
        == Aggregate(w, (x: Receipt) => MonthOf(x) == MonthIndex(y, m))
  {
    var w := LastSixMonths(rs, users[email], today);
    var g := GroupByMonth(w);
    WindowFourDigit(rs, users[email], today);
    GroupShape(w);
    ChartRowMonth(g, i, y, m);
    LookupAscending(g, i);
    GroupTotals(w, g[i].key);
  }

  /** The rows' counts add up to the number of receipts in the window. */
  lemma SpendByMonthCount(users: Users, email: string, rs: seq<Receipt>, today: Date)
    requires email in users && ValidDate(today) && FourDigitYears(rs)
    ensures CountRowsOut(SpendByMonth(users, email, rs, today).value)
      == |LastSixMonths(rs, users[email], today)|
  {
    var w := LastSixMonths(rs, users[email], today);
    var g := GroupByMonth(w);
    WindowFourDigit(rs, users[email], today);
    GroupSums(w);
    CountRowsMapped(g, Chart(g));
  }

  /** In ascending groups, looking up a group's own month finds it. */
  lemma {:induction false} LookupAscending(rows: seq<MonthRow>, i: nat)
    requires Ascending(rows) && i < |rows|
    ensures Lookup(rows, rows[i].key) == Totals(rows[i].gasto, rows[i].facturas)
  {
    if i > 0 {
      assert rows[0].key < rows[i].key;
      LookupAscending(rows[1..], i - 1);
    }
  }

  function CountRowsOut(out: seq<MonthlySpend>): nat
  {
    if out == [] then 0 else out[0].numFacturas + CountRowsOut(out[1..])
  }

  lemma {:induction false} CountRowsMapped(g: seq<MonthRow>, out: seq<MonthlySpend>)
    requires |g| == |out| && forall i :: 0 <= i < |g| ==> out[i].numFacturas == g[i].facturas
    ensures CountRowsOut(out) == CountRows(g)
  {
    if g != [] {
      CountRowsMapped(g[1..], out[1..]);
    }
  }

  // ---- month-over-month comparison -------------------------------------

  /** The hundredths `toFixed(2)` keeps: the nearest whole number of
      hundredths, ties away from zero. */
  function Cents(x: real): int
  {
    if x >= 0.0 then (x * 100.0 + 0.5).Floor else -((-x * 100.0 + 0.5).Floor)
  }

  /** `Number.prototype.toFixed(2)`, read back as a number. */
  function Round2(x: real): real
  {
    Cents(x) as real / 100.0
  }

  /** Rounding moves a value by at most half a hundredth. */
  lemma Round2Close(x: real)
    ensures -0.005 <= Round2(x) - x <= 0.005
  {
    var y := if x >= 0.0 then x else -x;
    var f := (y * 100.0 + 0.5).Floor as real;
    assert f <= y * 100.0 + 0.5 < f + 1.0;
    assert -0.005 <= f / 100.0 - y <= 0.005;
  }

  /** Rounding keeps a value that already is a whole number of hundredths. */
  lemma Round2KeepsCents(x: real, n: int)
    requires x * 100.0 == n as real
    ensures Round2(x) == x
  {
    if x >= 0.0 {
      assert n as real <= x * 100.0 + 0.5 < n as real + 1.0;
      assert Cents(x) == n;
    } else {
      assert -n as real <= -x * 100.0 + 0.5 < -n as real + 1.0;
      assert Cents(x) == n;
    }
  }

  /** The rounded value lies on the hundredths grid, at `Cents(x)` hundredths. */
  lemma Round2Grid(x: real)
    ensures Round2(x) * 100.0 == Cents(x) as real
  {
  }

  /** An integer within half a unit of `y` is a nearest integer to `y`. */
  lemma NearestInteger(c: int, y: real, n: int)
    requires c as real - 0.5 <= y <= c as real + 0.5
    ensures var d := c as real - y;
      var e := n as real - y;
      (if d < 0.0 then -d else d) <= (if e < 0.0 then -e else e)
  {
    if n > c {
      assert n as real >= c as real + 1.0;
    } else if n < c {
      assert n as real <= c as real - 1.0;
    }
  }

  /** Within half a hundredth: `Cents(x)` is at most half a unit from `x * 100`. */
  lemma CentsHalfUnit(x: real)
    ensures Cents(x) as real - 0.5 <= x * 100.0 <= Cents(x) as real + 0.5
  {
    if x >= 0.0 {
      var f := (x * 100.0 + 0.5).Floor;
      assert f as real <= x * 100.0 + 0.5 < f as real + 1.0;
    } else {
      var f := (-x * 100.0 + 0.5).Floor;
      assert f as real <= -x * 100.0 + 0.5 < f as real + 1.0;
    }
  }

  /** `Cents(x)` is a nearest whole number of hundredths: no integer `n` is
      closer to `x * 100`. */
  lemma CentsNearest(x: real, n: int)
    ensures var d := Cents(x) as real - x * 100.0;
      var e := n as real - x * 100.0;
      (if d < 0.0 then -d else d) <= (if e < 0.0 then -e else e)
  {
    CentsHalfUnit(x);
    NearestInteger(Cents(x), x * 100.0, n);
  }

  /** `GET /estadisticas/mes-comparacion`. */
  datatype Comparison = Comparison(
    gastoMesActual: real,
    gastoMesAnterior: real,
    diferencia: real,
    porcentajeCambio: real)

  function CompareMonths(users: Users, email: string, rs: seq<Receipt>, today: Date): (r: Result<Comparison>)
    requires ValidDate(today)
    ensures email !in users <==> r == Err(UserNotFound)
    ensures r.Ok? ==> r.value.gastoMesAnterior + r.value.diferencia == r.value.gastoMesActual
    ensures r.Ok? && r.value.gastoMesAnterior <= 0.0 ==> r.value.porcentajeCambio == 0.0
    ensures r.Ok? && r.value.gastoMesAnterior > 0.0 ==>
      -0.005 <= r.value.porcentajeCambio - r.value.diferencia / r.value.gastoMesAnterior * 100.0 <= 0.005
    ensures r.Ok? && r.value.gastoMesAnterior > 0.0 ==>
      r.value.porcentajeCambio == Round2(r.value.diferencia / r.value.gastoMesAnterior * 100.0)
  {
    if email !in users then Err(UserNotFound)
    else
      var uid := users[email];
      var actual := Aggregate(rs, (x: Receipt) => x.owner == uid && InMonthOf(today, x)).gasto;
      var anterior := Aggregate(rs, (x: Receipt) => x.owner == uid && InPreviousMonth(today, x)).gasto;
      var diferencia := actual - anterior;
      var porcentaje :=
        if anterior > 0.0 then
          Round2Close(diferencia / anterior * 100.0);
          Round2(diferencia / anterior * 100.0)
        else 0.0;
      Ok(Comparison(actual, anterior, diferencia, porcentaje))
  }

  /** The comparison's current month agrees with `mes-actual`, and its
      previous month is the calendar month before today: the sum over the
      receipts whose month index is one less than today's. */
  lemma CompareMonthsMeaning(users: Users, email: string, rs: seq<Receipt>, today: Date)
    requires email in users && ValidDate(today)
    requires forall k :: 0 <= k < |rs| ==> ValidDate(rs[k].fecha)
    ensures var c := CompareMonths(users, email, rs, today).value;
      && c.gastoMesActual == CurrentMonthSpend(users, email, rs, today).value.gasto
      && c.gastoMesAnterior == Aggregate(rs, (x: Receipt) =>
           x.owner == users[email] && MonthOf(x) == MonthIndex(today.year, today.month) - 1).gasto
  {
    var uid := users[email];
    var p := (x: Receipt) => x.owner == uid && InPreviousMonth(today, x);
    var q := (x: Receipt) => x.owner == uid && MonthOf(x) == MonthIndex(today.year, today.month) - 1;
    forall k | 0 <= k < |rs| ensures p(rs[k]) == q(rs[k]) {
      PreviousMonthWindow(today, rs[k].fecha);
    }
    AggregateCongruent(rs, p, q);
  }

  // ---- per-receipt average, minimum and maximum ------------------------

  function MinCost(rs: seq<Receipt>): (r: Option<real>)
    ensures r.None? <==> rs == []
    ensures r.Some? ==> (exists k :: 0 <= k < |rs| && rs[k].coste == r.value)
                        && forall k :: 0 <= k < |rs| ==> r.value <= rs[k].coste
  {
    if rs == [] then None
    else
      var n := |rs| - 1;
      var m := MinCost(rs[..n]);
      assert forall k :: 0 <= k < n ==> rs[..n][k] == rs[k];
      if m.None? || rs[n].coste < m.value then Some(rs[n].coste) else m
  }

  function MaxCost(rs: seq<Receipt>): (r: Option<real>)
    ensures r.None? <==> rs == []
    ensures r.Some? ==> (exists k :: 0 <= k < |rs| && rs[k].coste == r.value)
                        && forall k :: 0 <= k < |rs| ==> rs[k].coste <= r.value
  {
    if rs == [] then None
    else
      var n := |rs| - 1;
      var m := MaxCost(rs[..n]);
      assert forall k :: 0 <= k < n ==> rs[..n][k] == rs[k];
      if m.None? || rs[n].coste > m.value then Some(rs[n].coste) else m
  }

  /** `GET /estadisticas/promedio-factura`; MIN and MAX are NULL without
      receipts. */
  datatype InvoiceAverage = InvoiceAverage(promedio: real, minimo: Option<real>, maximo: Option<real>)

  function AveragePerReceipt(users: Users, email: string, rs: seq<Receipt>): (r: Result<InvoiceAverage>)
    ensures email !in users <==> r == Err(UserNotFound)
    ensures r.Ok? ==> (r.value.minimo.None? <==> r.value.maximo.None?)
    ensures r.Ok? && r.value.minimo.None? ==> r.value.promedio == 0.0
    ensures r.Ok? && r.value.minimo.Some? ==>
      r.value.minimo.value <= r.value.promedio <= r.value.maximo.value
  {
    if email !in users then Err(UserNotFound)
    else
      var uid := users[email];
      var own := Seqs.Filter((x: Receipt) => x.owner == uid, rs);
      var lo, hi := MinCost(own), MaxCost(own);
      var avg := if own == [] then 0.0 else SumCost(own) / |own| as real;
      AverageWithinRange(own);
      Ok(InvoiceAverage(avg, lo, hi))
  }

  lemma AverageWithinRange(rs: seq<Receipt>)
    ensures rs != [] ==> MinCost(rs).value <= SumCost(rs) / |rs| as real <= MaxCost(rs).value
  {
    if rs != [] {
      AverageBetween(rs, MinCost(rs).value, MaxCost(rs).value);
    }
  }

  lemma AverageBetween(rs: seq<Receipt>, lo: real, hi: real)
    requires rs != []
    requires forall k :: 0 <= k < |rs| ==> lo <= rs[k].coste <= hi
    ensures lo <= SumCost(rs) / |rs| as real <= hi
  {
    SumCostBounds(rs, lo, hi);
    var n := |rs| as real;
    assert SumCost(rs) / n * n == SumCost(rs);
  }

  /** The caller's receipts decide the three values: they are the average,
      least and greatest cost of those receipts. */
  lemma AveragePerReceiptMeaning(users: Users, email: string, rs: seq<Receipt>)
    requires email in users
    ensures var own := Seqs.Filter((x: Receipt) => x.owner == users[email], rs);
      var a := AveragePerReceipt(users, email, rs).value;
      && (own == [] <==> a.minimo.None?)
      && (own != [] ==> a.promedio == TotalSpend(users, email, rs).value.gasto / TotalSpend(users, email, rs).value.facturas as real)
      && (forall x :: x in own ==> a.minimo.value <= x.coste <= a.maximo.value)
      && (a.minimo.Some? ==> exists x :: x in own && x.coste == a.minimo.value)
      && (a.maximo.Some? ==> exists x :: x in own && x.coste == a.maximo.value)
  {
  }

  // ---- end-of-month projection ------------------------------------------

  /** `GET /estadisticas/proyeccion-fin-mes`. */
  datatype Projection = Projection(
    gastoActual: real,
    diasTranscurridos: int,
    diasTotalesMes: int,
    proyeccionFinMes: real)

  function ProjectMonthEnd(users: Users, email: string, rs: seq<Receipt>, today: Date): (r: Result<Projection>)
    requires ValidDate(today)
    ensures email !in users <==> r == Err(UserNotFound)
    ensures r.Ok? ==> 1 <= r.value.diasTranscurridos <= r.value.diasTotalesMes
    ensures r.Ok? ==> r.value.diasTranscurridos == today.day
                      && r.value.diasTotalesMes == DaysInMonth(today.year, today.month)
  {
    if email !in users then Err(UserNotFound)
    else
      var uid := users[email];
      var t := Aggregate(rs, (x: Receipt) => x.owner == uid && InMonthOf(today, x));
      var days := DaysInMonth(today.year, today.month);
      var proj := if t.facturas == 0 then 0.0 else t.gasto * days as real / today.day as real;
      Ok(Projection(t.gasto, today.day, days, proj))
  }

  /** The projection scales the month's spend so far by days in month over
      days elapsed (the `COALESCE` only covers the month without receipts,
      whose sum is 0 anyway); it is 0 without receipts this month, never
      below the spend so far when that is not negative, and equal to it on
      the last day of the month. */
  lemma ProjectMonthEndMeaning(users: Users, email: string, rs: seq<Receipt>, today: Date)
    requires email in users && ValidDate(today)
    ensures var p := ProjectMonthEnd(users, email, rs, today).value;
      var cur := CurrentMonthSpend(users, email, rs, today).value;
      && p.gastoActual == cur.gasto
      && p.proyeccionFinMes == cur.gasto * p.diasTotalesMes as real / p.diasTranscurridos as real
      && (cur.facturas == 0 ==> p.proyeccionFinMes == 0.0)
      && (cur.gasto >= 0.0 ==> p.proyeccionFinMes >= cur.gasto)
      && (today.day == DaysInMonth(today.year, today.month) ==> p.proyeccionFinMes == cur.gasto)
  {
    var uid := users[email];
    var t := Aggregate(rs, (x: Receipt) => x.owner == uid && InMonthOf(today, x));
    var days := DaysInMonth(today.year, today.month) as real;
    var d := today.day as real;
    if t.facturas == 0 {
      assert Seqs.Filter((x: Receipt) => x.owner == uid && InMonthOf(today, x), rs) == [];
    }
    if t.gasto >= 0.0 {
      ScaleUp(t.gasto, days, d);
    }
  }

  lemma ScaleUp(g: real, days: real, d: real)
    requires g >= 0.0 && 1.0 <= d <= days
    ensures g * days / d >= g
  {
    var q := g * days / d;
    assert q * d == g * days;
    assert g * days >= g * d;
    if q < g {
      assert q * d < g * d;
    }
  }
}
