/**
 * The allocation table of one respondent session (App.py:63-99) and the
 * functions that specify what the session's loops compute from it: the
 * per-priority subtotals, the grand total and the ordered list of
 * positive entries that the CSV rows are built from. Every definition is
 * over a catalogue `c`; the survey uses `Catalog.TheCatalogue`.
 */
module Allocations {
  import opened Catalog

  /** `st.session_state.allocations`: priority -> item -> amount. */
  type Table = map<string, map<string, int>>

  /** One (priority, item, amount) cell of the table. */
  datatype Entry = Entry(priority: string, item: string, amount: int)

  /** The table has exactly the catalogue's priorities as keys, and under
      each priority exactly the catalogue's items. */
  ghost predicate WellShaped(c: Catalogue, t: Table) {
    t.Keys == Names(c.priorities) && forall p :: p in t ==> t[p].Keys == Names(c.items)
  }

  /** The set of names in a list. */
  ghost function Names(s: seq<string>): set<string> {
    set x | x in s
  }

  /** Every amount lies in 0..100, the range the number inputs accept
      (App.py:156-174). */
  ghost predicate InRange(c: Catalogue, t: Table)
    requires WellShaped(c, t)
  {
    forall p, i :: p in c.priorities && i in c.items ==> 0 <= t[p][i] <= 100
  }

  /** One priority's amounts, all zero. */
  function ZeroRow(c: Catalogue): map<string, int> {
    map i | i in c.items :: 0
  }

  /** The table `init_state` builds and `clear_all` restores. */
  function ZeroTable(c: Catalogue): (z: Table)
    ensures WellShaped(c, z) && InRange(c, z)
    ensures forall p, i :: p in c.priorities && i in c.items ==> z[p][i] == 0
  {
    map p | p in c.priorities :: ZeroRow(c)
  }

  /** Setting one cell to an amount in range keeps the table's shape and
      the range of every amount. */
  lemma UpdateCell(c: Catalogue, t: Table, p: string, item: string, amount: int)
    requires WellShaped(c, t) && InRange(c, t)
    requires p in c.priorities && item in c.items && 0 <= amount <= 100
    ensures WellShaped(c, t[p := t[p][item := amount]]) && InRange(c, t[p := t[p][item := amount]])
  {
    var u := t[p := t[p][item := amount]];
    assert forall q :: q in u ==> q in t;
    assert forall i :: i in u[p] <==> i in t[p];
  }

  /** A row with the amounts of its first `n` catalogue items set to zero,
      one item at a time, as `clear_all`'s inner loop does. */
  function ZeroFirstItems(c: Catalogue, row: map<string, int>, n: nat): map<string, int>
    requires n <= |c.items|
  {
    if n == 0 then row else ZeroFirstItems(c, row, n - 1)[c.items[n - 1] := 0]
  }

  /** A table with the rows of its first `m` catalogue priorities replaced
      by zeros, one priority at a time, as `clear_all`'s outer loop does. */
  function ZeroFirstRows(c: Catalogue, t: Table, m: nat): Table
    requires m <= |c.priorities|
  {
    if m == 0 then t else ZeroFirstRows(c, t, m - 1)[c.priorities[m - 1] := ZeroRow(c)]
  }

  /** Zeroing items keeps the row's keys and zeroes exactly the items done so far. */
  lemma {:induction false} ZeroFirstItemsZeroes(c: Catalogue, row: map<string, int>, n: nat)
    requires row.Keys == Names(c.items) && n <= |c.items|
    ensures ZeroFirstItems(c, row, n).Keys == row.Keys
    ensures forall k :: 0 <= k < n ==> ZeroFirstItems(c, row, n)[c.items[k]] == 0
  {
    if n > 0 {
      ZeroFirstItemsZeroes(c, row, n - 1);
    }
  }

  /** Zeroing every item of a row with the catalogue's items gives the
      all-zero row, whatever the amounts were. */
  lemma ZeroAllItems(c: Catalogue, row: map<string, int>)
    requires row.Keys == Names(c.items)
    ensures ZeroFirstItems(c, row, |c.items|) == ZeroRow(c)
  {
    var r := ZeroFirstItems(c, row, |c.items|);
    ZeroFirstItemsZeroes(c, row, |c.items|);
    forall i | i in r ensures r[i] == ZeroRow(c)[i] {
      assert c.items[Position(c.items, i)] == i;
    }
  }

  /** Zeroing rows keeps every priority with the catalogue's items. */
  lemma {:induction false} ZeroFirstRowsRow(c: Catalogue, t: Table, m: nat, p: string)
    requires WellShaped(c, t) && m <= |c.priorities| && p in c.priorities
    ensures p in ZeroFirstRows(c, t, m) && ZeroFirstRows(c, t, m)[p].Keys == Names(c.items)
  {
    if m > 0 {
      ZeroFirstRowsRow(c, t, m - 1, p);
    }
  }

  /** Zeroing rows keeps the table's priorities and zeroes the rows done so far. */
  lemma {:induction false} ZeroFirstRowsZeroes(c: Catalogue, t: Table, m: nat)
    requires WellShaped(c, t) && m <= |c.priorities|
    ensures ZeroFirstRows(c, t, m).Keys == t.Keys
    ensures forall k :: 0 <= k < m ==> ZeroFirstRows(c, t, m)[c.priorities[k]] == ZeroRow(c)
  {
    if m > 0 {
      ZeroFirstRowsZeroes(c, t, m - 1);
      var z, p := ZeroFirstRows(c, t, m - 1), c.priorities[m - 1];
      assert ZeroFirstRows(c, t, m) == z[p := ZeroRow(c)];
      forall k | 0 <= k < m ensures z[p := ZeroRow(c)][c.priorities[k]] == ZeroRow(c) {
        if c.priorities[k] != p {
          assert z[c.priorities[k]] == ZeroRow(c);
        }
      }
    }
  }

  /** Zeroing every row of a table with the catalogue's shape gives the
      table `init_state` builds, whatever the amounts were. */
  lemma ZeroAllRows(c: Catalogue, t: Table)
    requires WellShaped(c, t)
    ensures ZeroFirstRows(c, t, |c.priorities|) == ZeroTable(c)
  {
    var z := ZeroFirstRows(c, t, |c.priorities|);
    ZeroFirstRowsZeroes(c, t, |c.priorities|);
    forall p | p in z ensures z[p] == ZeroTable(c)[p] {
      assert c.priorities[Position(c.priorities, p)] == p;
    }
  }

  // ---------------------------------------------------------------------
  // Sums (App.py:72-77)
  // ---------------------------------------------------------------------

  /** Sum of the amounts of priority `p` over the first `n` items. */
  function RowSum(c: Catalogue, t: Table, p: string, n: nat): int
    requires WellShaped(c, t) && p in c.priorities && n <= |c.items|
  {
    if n == 0 then 0 else RowSum(c, t, p, n - 1) + t[p][c.items[n - 1]]
  }

  /** The subtotal of one priority: the sum of all its amounts. */
  function Subtotal(c: Catalogue, t: Table, p: string): int
    requires WellShaped(c, t) && p in c.priorities
  {
    RowSum(c, t, p, |c.items|)
  }

  /** Sum of the subtotals of the first `m` priorities. */
  function SubtotalSum(c: Catalogue, t: Table, m: nat): int
    requires WellShaped(c, t) && m <= |c.priorities|
  {
    if m == 0 then 0 else SubtotalSum(c, t, m - 1) + Subtotal(c, t, c.priorities[m - 1])
  }

  /** The `subtotals` dictionary once the first `m` priorities are in it. */
  function SubtotalsUpTo(c: Catalogue, t: Table, m: nat): map<string, int>
    requires WellShaped(c, t) && m <= |c.priorities|
  {
    if m == 0 then map[]
    else SubtotalsUpTo(c, t, m - 1)[c.priorities[m - 1] := Subtotal(c, t, c.priorities[m - 1])]
  }

  /** The dictionary holds exactly the first `m` priorities, each with its
      own subtotal. */
  lemma {:induction false} SubtotalsUpToAt(c: Catalogue, t: Table, m: nat, p: string)
    requires WellShaped(c, t) && m <= |c.priorities|
    ensures p in SubtotalsUpTo(c, t, m) <==> p in c.priorities[..m]
    ensures p in SubtotalsUpTo(c, t, m) ==> p in c.priorities && SubtotalsUpTo(c, t, m)[p] == Subtotal(c, t, p)
  {
    if m > 0 {
      SubtotalsUpToAt(c, t, m - 1, p);
      assert c.priorities[..m] == c.priorities[..m - 1] + [c.priorities[m - 1]];
    }
  }

  /** The grand total: the sum of the subtotals. */
  function Total(c: Catalogue, t: Table): int
    requires WellShaped(c, t)
  {
    SubtotalSum(c, t, |c.priorities|)
  }

  // ---------------------------------------------------------------------
  // Positive entries, in catalogue order (App.py:87-99, 129-132)
  // ---------------------------------------------------------------------

  /** The entries of priority `p` with a positive amount among the first `n`
      items, in item order. */
  function RowEntries(c: Catalogue, t: Table, p: string, n: nat): seq<Entry>
    requires WellShaped(c, t) && p in c.priorities && n <= |c.items|
  {
    if n == 0 then []
    else
      var item := c.items[n - 1];
      RowEntries(c, t, p, n - 1) + (if t[p][item] > 0 then [Entry(p, item, t[p][item])] else [])
  }

  /** One more item adds its entry when its amount is positive, and
      nothing otherwise. */
  lemma RowEntriesStep(c: Catalogue, t: Table, p: string, n: nat)
    requires WellShaped(c, t) && p in c.priorities && n < |c.items|
    ensures var item := c.items[n];
      RowEntries(c, t, p, n + 1) ==
        if t[p][item] > 0 then RowEntries(c, t, p, n) + [Entry(p, item, t[p][item])]
        else RowEntries(c, t, p, n)
  {
    var item := c.items[n];
    if t[p][item] <= 0 {
      assert RowEntries(c, t, p, n) + [] == RowEntries(c, t, p, n);
    }
  }

  /** The positive entries of the first `m` priorities, priority by priority. */
  function TableEntries(c: Catalogue, t: Table, m: nat): seq<Entry>
    requires WellShaped(c, t) && m <= |c.priorities|
  {
    if m == 0 then [] else TableEntries(c, t, m - 1) + RowEntries(c, t, c.priorities[m - 1], |c.items|)
  }

  /** Every positive entry of the table, in priority order then item order. */
  function PositiveEntries(c: Catalogue, t: Table): seq<Entry>
    requires WellShaped(c, t)
  {
    TableEntries(c, t, |c.priorities|)
  }

  /** Sum of the amounts of a list of entries. */
  function EntrySum(es: seq<Entry>): int {
    if es == [] then 0 else EntrySum(es[..|es| - 1]) + es[|es| - 1].amount
  }

  /** Catalogue order: priority position first, then item position. */
  ghost predicate Before(c: Catalogue, a: Entry, b: Entry) {
    var pa, pb := Position(c.priorities, a.priority), Position(c.priorities, b.priority);
    pa < pb || (pa == pb && Position(c.items, a.item) < Position(c.items, b.item))
  }

  // ---------------------------------------------------------------------
  // Lemmas
  // ---------------------------------------------------------------------

  lemma {:induction false} EntrySumConcat(a: seq<Entry>, b: seq<Entry>)
    ensures EntrySum(a + b) == EntrySum(a) + EntrySum(b)
  {
    if b != [] {
      assert (a + b)[..|a + b| - 1] == a + b[..|b| - 1];
      EntrySumConcat(a, b[..|b| - 1]);
    } else {
      assert a + b == a;
    }
  }

  /** A priority's positive entries add up to its amounts, because the
      entries left out are exactly the zero amounts. */
  lemma {:induction false} RowEntriesSum(c: Catalogue, t: Table, p: string, n: nat)
    requires WellShaped(c, t) && InRange(c, t) && p in c.priorities && n <= |c.items|
    ensures EntrySum(RowEntries(c, t, p, n)) == RowSum(c, t, p, n)
  {
    if n > 0 {
      var item := c.items[n - 1];
      var before := RowEntries(c, t, p, n - 1);
      RowEntriesSum(c, t, p, n - 1);
      var amount := t[p][item];
      if amount > 0 {
        var e := Entry(p, item, amount);
        assert RowEntries(c, t, p, n) == before + [e];
        EntrySumConcat(before, [e]);
        assert EntrySum([e]) == EntrySum([]) + amount by { assert [e][..0] == []; }
      } else {
        assert amount == 0 by { assert item in c.items; }
        assert RowEntries(c, t, p, n) == before by { assert before + [] == before; }
      }
    }
  }

  lemma {:induction false} TableEntriesSum(c: Catalogue, t: Table, m: nat)
    requires WellShaped(c, t) && InRange(c, t) && m <= |c.priorities|
    ensures EntrySum(TableEntries(c, t, m)) == SubtotalSum(c, t, m)
  {
    if m > 0 {
      var p := c.priorities[m - 1];
      TableEntriesSum(c, t, m - 1);
      RowEntriesSum(c, t, p, |c.items|);
      EntrySumConcat(TableEntries(c, t, m - 1), RowEntries(c, t, p, |c.items|));
    }
  }

  /** The amounts of the positive entries sum to the grand total: the total
      is the sum over every (priority, item) cell, zeros contributing
      nothing. */
  lemma EntriesSumToTotal(c: Catalogue, t: Table)
    requires WellShaped(c, t) && InRange(c, t)
    ensures EntrySum(PositiveEntries(c, t)) == Total(c, t)
  {
    TableEntriesSum(c, t, |c.priorities|);
  }

  /** With non-negative amounts, a total of exactly 100 leaves at least one
      positive entry: the "no allocations" branch of the submit flow cannot
      be reached once the total gate has passed. */
  lemma FullBudgetHasEntries(c: Catalogue, t: Table)
    requires WellShaped(c, t) && InRange(c, t) && Total(c, t) == 100
    ensures PositiveEntries(c, t) != []
  {
    EntriesSumToTotal(c, t);
  }

  lemma {:induction false} RowEntriesMembers(c: Catalogue, t: Table, p: string, n: nat, e: Entry)
    requires WellFormed(c) && WellShaped(c, t) && p in c.priorities && n <= |c.items|
    ensures e in RowEntries(c, t, p, n) <==>
      e.priority == p && Position(c.items, e.item) < n && e.amount == t[p][e.item] && e.amount > 0
  {
    if n > 0 {
      var item := c.items[n - 1];
      var before := RowEntries(c, t, p, n - 1);
      RowEntriesMembers(c, t, p, n - 1, e);
      assert Position(c.items, c.items[n - 1]) == n - 1;
      var k := Position(c.items, e.item);
      assert k == n - 1 <==> e.item == item;
      if t[p][item] > 0 {
        assert RowEntries(c, t, p, n) == before + [Entry(p, item, t[p][item])];
        assert e in RowEntries(c, t, p, n) <==> e in before || e == Entry(p, item, t[p][item]);
      } else {
        assert RowEntries(c, t, p, n) == before by { assert before + [] == before; }
      }
    }
  }

  lemma {:induction false} TableEntriesMembers(c: Catalogue, t: Table, m: nat, e: Entry)
    requires WellFormed(c) && WellShaped(c, t) && m <= |c.priorities|
    ensures e in TableEntries(c, t, m) <==>
      Position(c.priorities, e.priority) < m && e.item in c.items &&
      e.amount == t[e.priority][e.item] && e.amount > 0
  {
    if m > 0 {
      var p := c.priorities[m - 1];
      TableEntriesMembers(c, t, m - 1, e);
      RowEntriesMembers(c, t, p, |c.items|, e);
      assert Position(c.priorities, p) == m - 1;
      var k := Position(c.priorities, e.priority);
      assert k == m - 1 <==> e.priority == p;
      assert Position(c.items, e.item) < |c.items| <==> e.item in c.items;
      assert TableEntries(c, t, m) == TableEntries(c, t, m - 1) + RowEntries(c, t, p, |c.items|);
    }
  }

  /** An entry is listed exactly when its cell is in the catalogue and holds
      that positive amount: no zero amount is ever listed, and no positive
      one is missed. */
  lemma PositiveEntriesMembers(c: Catalogue, t: Table, e: Entry)
    requires WellFormed(c) && WellShaped(c, t)
    ensures e in PositiveEntries(c, t) <==>
      e.priority in c.priorities && e.item in c.items &&
      e.amount == t[e.priority][e.item] && e.amount > 0
  {
    TableEntriesMembers(c, t, |c.priorities|, e);
  }

  lemma {:induction false} RowEntriesOrdered(c: Catalogue, t: Table, p: string, n: nat)
    requires WellFormed(c) && WellShaped(c, t) && p in c.priorities && n <= |c.items|
    ensures forall k :: 0 <= k < |RowEntries(c, t, p, n)| ==>
      RowEntries(c, t, p, n)[k].priority == p && Position(c.items, RowEntries(c, t, p, n)[k].item) < n
    ensures forall a, b :: 0 <= a < b < |RowEntries(c, t, p, n)| ==>
      Position(c.items, RowEntries(c, t, p, n)[a].item) < Position(c.items, RowEntries(c, t, p, n)[b].item)
  {
    if n > 0 {
      var item := c.items[n - 1];
      var before := RowEntries(c, t, p, n - 1);
      RowEntriesOrdered(c, t, p, n - 1);
      if t[p][item] > 0 {
        var e := Entry(p, item, t[p][item]);
        var r := before + [e];
        assert RowEntries(c, t, p, n) == r;
        assert Position(c.items, c.items[n - 1]) == n - 1;
        forall k | 0 <= k < |r|
          ensures r[k].priority == p && Position(c.items, r[k].item) < n
        {
          if k < |before| { assert r[k] == before[k]; } else { assert r[k] == e; }
        }
        forall a, b | 0 <= a < b < |r|
          ensures Position(c.items, r[a].item) < Position(c.items, r[b].item)
        {
          assert r[a] == before[a];
          if b < |before| { assert r[b] == before[b]; } else { assert r[b] == e; }
        }
      } else {
        assert RowEntries(c, t, p, n) == before by { assert before + [] == before; }
      }
    }
  }

  lemma {:induction false} TableEntriesOrdered(c: Catalogue, t: Table, m: nat)
    requires WellFormed(c) && WellShaped(c, t) && m <= |c.priorities|
    ensures forall k :: 0 <= k < |TableEntries(c, t, m)| ==>
      Position(c.priorities, TableEntries(c, t, m)[k].priority) < m
    ensures forall a, b :: 0 <= a < b < |TableEntries(c, t, m)| ==>
      Before(c, TableEntries(c, t, m)[a], TableEntries(c, t, m)[b])
  {
    if m > 0 {
      var p := c.priorities[m - 1];
      var left, right := TableEntries(c, t, m - 1), RowEntries(c, t, p, |c.items|);
      TableEntriesOrdered(c, t, m - 1);
      RowEntriesOrdered(c, t, p, |c.items|);
      assert Position(c.priorities, c.priorities[m - 1]) == m - 1;
      assert TableEntries(c, t, m) == left + right;
    }
  }

  /** The entries follow the priorities' order, then the items' order, and
      each (priority, item) cell appears at most once. */
  lemma PositiveEntriesOrdered(c: Catalogue, t: Table)
    requires WellFormed(c) && WellShaped(c, t)
    ensures forall a, b :: 0 <= a < b < |PositiveEntries(c, t)| ==>
      Before(c, PositiveEntries(c, t)[a], PositiveEntries(c, t)[b])
    ensures forall a, b :: 0 <= a < b < |PositiveEntries(c, t)| ==>
      (PositiveEntries(c, t)[a].priority, PositiveEntries(c, t)[a].item) !=
      (PositiveEntries(c, t)[b].priority, PositiveEntries(c, t)[b].item)
  {
    TableEntriesOrdered(c, t, |c.priorities|);
  }

  /** A table with the catalogue's shape whose amounts are all zero is the
      table `init_state` builds: clearing keeps exactly the same priorities
      and items. */
  lemma AllZeroIsZeroTable(c: Catalogue, t: Table)
    requires WellShaped(c, t)
    requires forall p, i :: p in c.priorities && i in c.items ==> t[p][i] == 0
    ensures t == ZeroTable(c)
  {
    var z := ZeroTable(c);
    forall p | p in c.priorities ensures t[p] == z[p] {
      assert t[p].Keys == z[p].Keys;
    }
    assert t.Keys == z.Keys;
  }

  /** The all-zero table has no positive entry and a total of 0. */
  lemma ZeroTableIsEmpty(c: Catalogue)
    requires WellFormed(c)
    ensures PositiveEntries(c, ZeroTable(c)) == [] && Total(c, ZeroTable(c)) == 0
  {
    var z := ZeroTable(c);
    if PositiveEntries(c, z) != [] {
      PositiveEntriesMembers(c, z, PositiveEntries(c, z)[0]);
    }
    EntriesSumToTotal(c, z);
  }
}
