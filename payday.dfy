/** The debtor report of payday.py: debtors are listed by descending debt,
    and a debt above 100 is flagged. Printing is modelled as producing the
    sequence of report lines. The text `str(debt)` of a float is not
    modelled: every operation that renders a debt takes the rendering `show`
    as a parameter. */
module Payday {

  /** A person owing money. */
  datatype Debtor = Debtor(name: string, debt: real)

  /** `str(debt)`, the text of a debt. */
  type Rendering = real -> string

  /** The debts rise (weakly) from left to right. */
  ghost predicate Ascending(ds: seq<Debtor>) {
    forall i, j :: 0 <= i < j < |ds| ==> ds[i].debt <= ds[j].debt
  }

  /** The debts fall (weakly) from left to right. */
  ghost predicate Descending(ds: seq<Debtor>) {
    forall i, j :: 0 <= i < j < |ds| ==> ds[i].debt >= ds[j].debt
  }

  /** The debtors owing exactly `d`, in their order in `ds`. */
  function WithDebt(ds: seq<Debtor>, d: real): seq<Debtor> {
    if ds == [] then []
    else (if ds[0].debt == d then [ds[0]] else []) + WithDebt(ds[1..], d)
  }

  /** `x` placed before the first debtor whose debt is not below its own. */
  function Insert(x: Debtor, ds: seq<Debtor>): seq<Debtor> {
    if ds == [] || x.debt <= ds[0].debt then [x] + ds
    else [ds[0]] + Insert(x, ds[1..])
  }

  /** `sorted(debtors, key=lambda debtor: debtor.debt)`: a stable sort by
      ascending debt (insertion sort; equal debts keep their input order). */
  function SortByDebt(ds: seq<Debtor>): seq<Debtor> {
    if ds == [] then [] else Insert(ds[0], SortByDebt(ds[1..]))
  }

  /** `reversed(...)`. */
  function Reverse(ds: seq<Debtor>): seq<Debtor> {
    if ds == [] then [] else Reverse(ds[1..]) + [ds[0]]
  }

  /** `_order_by_descending_debt(debtors)`: the same debtors, by descending
      debt; debtors with equal debt come out in the reverse of their input
      order. */
  function OrderByDescendingDebt(ds: seq<Debtor>): (r: seq<Debtor>)
    ensures |r| == |ds| && multiset(r) == multiset(ds)
    ensures Descending(r)
    ensures forall d :: WithDebt(r, d) == Reverse(WithDebt(ds, d))
  {
    SortPermutes(ds);
    assert |SortByDebt(ds)| == |ds| by {
      assert |multiset(SortByDebt(ds))| == |multiset(ds)|;
    }
    ReverseAt(SortByDebt(ds));
    SortAscending(ds);
    ReversePermutes(SortByDebt(ds));
    ReverseOfAscending(SortByDebt(ds));
    forall d ensures WithDebt(Reverse(SortByDebt(ds)), d) == Reverse(WithDebt(ds, d)) {
      SortStable(ds, d);
      ReverseWithDebt(SortByDebt(ds), d);
    }
    Reverse(SortByDebt(ds))
  }

  lemma {:induction false} InsertPermutes(x: Debtor, ds: seq<Debtor>)
    ensures multiset(Insert(x, ds)) == multiset(ds) + multiset{x}
  {
    if ds != [] && x.debt > ds[0].debt {
      InsertPermutes(x, ds[1..]);
      assert ds == [ds[0]] + ds[1..];
    }
  }

  /** Sorting keeps exactly the debtors it is given. */
  lemma {:induction false} SortPermutes(ds: seq<Debtor>)
    ensures multiset(SortByDebt(ds)) == multiset(ds)
  {
    if ds != [] {
      SortPermutes(ds[1..]);
      InsertPermutes(ds[0], SortByDebt(ds[1..]));
      assert ds == [ds[0]] + ds[1..];
    }
  }

  lemma {:induction false} InsertAscending(x: Debtor, ds: seq<Debtor>)
    requires Ascending(ds)
    ensures Ascending(Insert(x, ds))
    ensures |Insert(x, ds)| == |ds| + 1
    ensures forall k :: 0 <= k < |Insert(x, ds)| ==> Insert(x, ds)[k] == x || Insert(x, ds)[k] in ds
  {
    if ds != [] && x.debt > ds[0].debt {
      InsertAscending(x, ds[1..]);
      var rest := Insert(x, ds[1..]);
      forall k | 0 <= k < |rest| ensures ds[0].debt <= rest[k].debt {
        if rest[k] != x {
          var m :| 1 <= m < |ds| && ds[m] == rest[k];
        }
      }
    }
  }

  /** Sorting orders the debts ascending. */
  lemma {:induction false} SortAscending(ds: seq<Debtor>)
    ensures Ascending(SortByDebt(ds))
  {
    if ds != [] {
      SortAscending(ds[1..]);
      InsertAscending(ds[0], SortByDebt(ds[1..]));
    }
  }

  lemma {:induction false} InsertStable(x: Debtor, ds: seq<Debtor>, d: real)
    ensures WithDebt(Insert(x, ds), d)
      == (if x.debt == d then [x] else []) + WithDebt(ds, d)
  {
    var xs := if x.debt == d then [x] else [];
    if ds != [] && x.debt > ds[0].debt {
      InsertStable(x, ds[1..], d);
      var rest := Insert(x, ds[1..]);
      var hs := if ds[0].debt == d then [ds[0]] else [];
      calc {
        WithDebt(Insert(x, ds), d);
        { assert Insert(x, ds) == [ds[0]] + rest && ([ds[0]] + rest)[1..] == rest; }
        hs + WithDebt(rest, d);
        hs + (xs + WithDebt(ds[1..], d));
        { assert hs == [] || xs == []; }
        xs + (hs + WithDebt(ds[1..], d));
        xs + WithDebt(ds, d);
      }
    } else {
      assert Insert(x, ds) == [x] + ds && ([x] + ds)[1..] == ds;
    }
  }

  /** Sorting is stable: the debtors of any one debt keep their order. */
  lemma {:induction false} SortStable(ds: seq<Debtor>, d: real)
    ensures WithDebt(SortByDebt(ds), d) == WithDebt(ds, d)
  {
    if ds != [] {
      SortStable(ds[1..], d);
      InsertStable(ds[0], SortByDebt(ds[1..]), d);
    }
  }

  lemma {:induction false} ReversePermutes(ds: seq<Debtor>)
    ensures multiset(Reverse(ds)) == multiset(ds)
  {
    if ds != [] {
      ReversePermutes(ds[1..]);
      assert ds == [ds[0]] + ds[1..];
    }
  }

  /** Element `k` of the reversal is element `|ds| - 1 - k` of `ds`. */
  lemma {:induction false} ReverseAt(ds: seq<Debtor>)
    ensures |Reverse(ds)| == |ds|
    ensures forall k :: 0 <= k < |ds| ==> Reverse(ds)[k] == ds[|ds| - 1 - k]
  {
    if ds != [] {
      ReverseAt(ds[1..]);
    }
  }

  lemma ReverseOfAscending(ds: seq<Debtor>)
    requires Ascending(ds)
    ensures Descending(Reverse(ds))
  {
    ReverseAt(ds);
  }

  lemma {:induction false} WithDebtAppend(a: seq<Debtor>, b: seq<Debtor>, d: real)
    ensures WithDebt(a + b, d) == WithDebt(a, d) + WithDebt(b, d)
  {
    if a != [] {
      WithDebtAppend(a[1..], b, d);
      assert (a + b)[1..] == a[1..] + b;
    } else {
      assert a + b == b;
    }
  }

  lemma {:induction false} ReverseAppend(a: seq<Debtor>, b: seq<Debtor>)
    ensures Reverse(a + b) == Reverse(b) + Reverse(a)
  {
    if a == [] {
      assert a + b == b;
    } else {
      ReverseAppend(a[1..], b);
      assert (a + b)[1..] == a[1..] + b;
    }
  }

  /** Selecting one debt commutes with reversal. */
  lemma {:induction false} ReverseWithDebt(ds: seq<Debtor>, d: real)
    ensures WithDebt(Reverse(ds), d) == Reverse(WithDebt(ds, d))
  {
    if ds != [] {
      ReverseWithDebt(ds[1..], d);
      WithDebtAppend(Reverse(ds[1..]), [ds[0]], d);
      var head := if ds[0].debt == d then [ds[0]] else [];
      ReverseAppend(head, WithDebt(ds[1..], d));
      assert Reverse(head) == head;
    }
  }

  /** `_format_debt(debt)`: the plain rendering up to and including 100; above
      100 the rendering with three extra characters on each side. */
  function FormatDebt(debt: real, show: Rendering): (s: string)
    ensures |s| == |show(debt)| + (if debt > 100.0 then 6 else 0)
    ensures debt <= 100.0 ==> s == show(debt)
    ensures debt > 100.0 ==> s[3..|s| - 3] == show(debt)
  {
    if debt <= 100.0 then show(debt) else "!!!" + show(debt) + "!!!"
  }

  /** A report entry carries the `!!!` markers. */
  predicate Flagged(s: string) {
    |s| >= 6 && s[..3] == "!!!" && s[|s| - 3..] == "!!!"
  }

  /** The rendering inside a report entry. */
  function Unflag(s: string): string {
    if Flagged(s) then s[3..|s| - 3] else s
  }

  /** A debt is flagged exactly when it is above 100, and the rendering of the
      debt can be read back from its entry, for any rendering that does not
      itself start with `!` (the text of a float starts with a digit, a sign,
      `i` or `n`). */
  lemma FormatDebtFlagsLargeDebts(debt: real, show: Rendering)
    requires show(debt) == [] || show(debt)[0] != '!'
    ensures Flagged(FormatDebt(debt, show)) <==> debt > 100.0
    ensures Unflag(FormatDebt(debt, show)) == show(debt)
  {
    var s := FormatDebt(debt, show);
    if debt > 100.0 {
      assert s[..3] == "!!!" && s[|s| - 3..] == "!!!";
      assert s[3..|s| - 3] == show(debt);
    } else if |s| >= 3 {
      assert s[..3][0] == s[0];
    }
  }

  /** The line `list_debtors` prints for one debtor. */
  function DebtorLine(d: Debtor, show: Rendering): string {
    d.name + ": " + FormatDebt(d.debt, show)
  }

  /** `list_debtors(debtors)`: one line per debtor, in iteration order. */
  method ListDebtors(ds: seq<Debtor>, show: Rendering) returns (lines: seq<string>)
    ensures |lines| == |ds|
    ensures forall i :: 0 <= i < |ds| ==> lines[i] == DebtorLine(ds[i], show)
  {
    lines := [];
    for i := 0 to |ds|
      invariant |lines| == i
      invariant forall k :: 0 <= k < i ==> lines[k] == DebtorLine(ds[k], show)
    {
      lines := lines + [DebtorLine(ds[i], show)];
    }
  }

  /** `payday(debtors)`: the report lines of the debtors by descending debt. */
  method PaydayReport(ds: seq<Debtor>, show: Rendering) returns (lines: seq<string>)
    ensures |lines| == |ds|
    ensures forall i :: 0 <= i < |ds| ==> lines[i] == DebtorLine(OrderByDescendingDebt(ds)[i], show)
  {
    var ordered := OrderByDescendingDebt(ds);
    lines := ListDebtors(ordered, show);
  }

  /** The debtors of the demo, in the order they are listed. */
  function DemoDebtors(): seq<Debtor> {
    [Debtor("Person1", 100.0), Debtor("Person2", 200.0), Debtor("Person3", 10.0),
     Debtor("Person4", 50.0), Debtor("Person5", 1250.0)]
  }

  /** Sorting the last four demo debtors by debt. */
  lemma DemoSortTail()
    ensures SortByDebt(DemoDebtors()[1..])
      == [Debtor("Person3", 10.0), Debtor("Person4", 50.0), Debtor("Person2", 200.0),
          Debtor("Person5", 1250.0)]
  {
    var p2, p3, p4, p5 := Debtor("Person2", 200.0), Debtor("Person3", 10.0),
      Debtor("Person4", 50.0), Debtor("Person5", 1250.0);
    assert DemoDebtors()[1..] == [p2, p3, p4, p5];
    assert SortByDebt([p5]) == [p5];
    assert SortByDebt([p4, p5]) == [p4, p5];
    assert SortByDebt([p3, p4, p5]) == [p3, p4, p5];
    assert Insert(p2, [p5]) == [p2, p5];
    assert Insert(p2, [p4, p5]) == [p4] + Insert(p2, [p5]);
    assert Insert(p2, [p3, p4, p5]) == [p3] + Insert(p2, [p4, p5]);
  }

  /** Sorting the demo debtors by debt: 10, 50, 100, 200, 1250. */
  lemma DemoSort()
    ensures SortByDebt(DemoDebtors())
      == [Debtor("Person3", 10.0), Debtor("Person4", 50.0), Debtor("Person1", 100.0),
          Debtor("Person2", 200.0), Debtor("Person5", 1250.0)]
  {
    var p1, p2, p3, p4, p5 := Debtor("Person1", 100.0), Debtor("Person2", 200.0),
      Debtor("Person3", 10.0), Debtor("Person4", 50.0), Debtor("Person5", 1250.0);
    DemoSortTail();
    assert Insert(p1, [p2, p5]) == [p1, p2, p5];
    assert Insert(p1, [p4, p2, p5]) == [p4] + Insert(p1, [p2, p5]);
    assert Insert(p1, [p3, p4, p2, p5]) == [p3] + Insert(p1, [p4, p2, p5]);
  }

  /** Reversing the sorted demo debtors. */
  lemma DemoReverse()
    ensures Reverse([Debtor("Person3", 10.0), Debtor("Person4", 50.0), Debtor("Person1", 100.0),
                     Debtor("Person2", 200.0), Debtor("Person5", 1250.0)])
      == [Debtor("Person5", 1250.0), Debtor("Person2", 200.0), Debtor("Person1", 100.0),
          Debtor("Person4", 50.0), Debtor("Person3", 10.0)]
  {
    var p1, p2, p3, p4, p5 := Debtor("Person1", 100.0), Debtor("Person2", 200.0),
      Debtor("Person3", 10.0), Debtor("Person4", 50.0), Debtor("Person5", 1250.0);
    var sorted := [p3, p4, p1, p2, p5];
    ReverseAt(sorted);
    var r := Reverse(sorted);
    assert r[0] == p5 && r[1] == p2 && r[2] == p1 && r[3] == p4 && r[4] == p3;
    assert r == [p5, p2, p1, p4, p3];
  }

  /** The order of the demo report: 1250, 200, 100, 50, 10. */
  lemma DemoOrder()
    ensures OrderByDescendingDebt(DemoDebtors())
      == [Debtor("Person5", 1250.0), Debtor("Person2", 200.0), Debtor("Person1", 100.0),
          Debtor("Person4", 50.0), Debtor("Person3", 10.0)]
  {
    DemoSort();
    DemoReverse();
  }
}
