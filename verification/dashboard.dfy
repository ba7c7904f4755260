/**
 * What the app's module body does with the cleaned table before it hands it
 * to the charting library: the colour category column, the list of date
 * options, the date filter, and the choice between a chart and the
 * "no data" message.
 */
module Dashboard {
  import opened Wrappers
  import opened Shipments
  import Seqs

  /** The two values of the `color` column. */
  datatype Category = High | Low

  function Label(c: Category): string
  {
    match c
    case High => "High (Above 50)"
    case Low => "Low (Below 50)"
  }

  /**
   * The colour rule applied to one `miles_prime` value: strictly greater than
   * 50 is High. A missing value is NaN, which compares false, so it is Low.
   */
  function Categorize(miles: Option<real>): (c: Category)
    ensures c == High <==> miles.Some? && miles.value > 50.0
  {
    match miles
    case Some(x) => if x > 50.0 then High else Low
    case None => Low
  }

  /** A larger value never falls into a lower category. */
  lemma CategorizeMonotone(a: real, b: real)
    requires a <= b
    ensures Categorize(Some(a)) == High ==> Categorize(Some(b)) == High
  {
  }

  /**
   * The `color` column added to the cleaned table: present only when the
   * table has a `miles_prime` column, and then one label per row.
   */
  function ColorColumn(hasMiles: bool, rows: seq<Row>): (col: Option<seq<string>>)
    ensures col.Some? <==> hasMiles
    ensures col.Some? ==> |col.value| == |rows|
    ensures col.Some? ==> forall i :: 0 <= i < |rows| ==>
      && (col.value[i] == "High (Above 50)" || col.value[i] == "Low (Below 50)")
      && (col.value[i] == "High (Above 50)" <==> rows[i].miles.Some? && rows[i].miles.value > 50.0)
  {
    if hasMiles then Some(seq(|rows|, i requires 0 <= i < |rows| => Label(Categorize(rows[i].miles)))) else None
  }

  /** An entry of the date selector: everything, or one calendar date. */
  datatype Choice = SelectAll | OnDate(date: Date)

  /** The row's depart timestamp falls on calendar date `d` (a null depart falls on none). */
  predicate DepartsOn(r: Row, d: Date)
  {
    r.depart.Some? && r.depart.value.date == d
  }

  /** `d` is the depart date of some row. */
  ghost predicate Offered(rows: seq<Row>, d: Date)
  {
    exists k :: 0 <= k < |rows| && DepartsOn(rows[k], d)
  }

  /** The rows shown for a choice: all of them, or those departing on the chosen date. */
  function Select(rows: seq<Row>, choice: Choice): (r: seq<Row>)
    ensures choice.SelectAll? ==> r == rows
    ensures choice.OnDate? ==> forall x :: x in r <==> x in rows && DepartsOn(x, choice.date)
    ensures choice.OnDate? ==> |r| == Seqs.Count(rows, (x: Row) => DepartsOn(x, choice.date))
  {
    match choice
    case SelectAll => rows
    case OnDate(d) =>
      var onDay := (x: Row) => DepartsOn(x, d);
      Seqs.FilterMembers(rows, onDay);
      Seqs.FilterLength(rows, onDay);
      Seqs.Filter(rows, onDay)
  }

  /** Selection keeps the original order: it distributes over concatenation. */
  lemma SelectConcat(a: seq<Row>, b: seq<Row>, choice: Choice)
    ensures Select(a + b, choice) == Select(a, choice) + Select(b, choice)
  {
    if choice.OnDate? {
      Seqs.FilterConcat(a, b, (x: Row) => DepartsOn(x, choice.date));
    }
  }

  /** Choosing a date that the selector offers always yields at least one row. */
  lemma OfferedDateHasRows(rows: seq<Row>, d: Date)
    requires Offered(rows, d)
    ensures Select(rows, OnDate(d)) != []
  {
  }

  /** What the page shows: the timeline of the selected rows, or a message. */
  datatype View = Timeline(rows: seq<Row>) | Message(text: string)

  const NoDataMessage := "No data available for the selected option."

  function Show(rows: seq<Row>, choice: Choice): (v: View)
    ensures v.Message? <==> Select(rows, choice) == []
    ensures v.Message? ==> v.text == NoDataMessage
    ensures v.Timeline? ==> v.rows == Select(rows, choice)
    ensures choice.SelectAll? && rows != [] ==> v == Timeline(rows)
  {
    var selected := Select(rows, choice);
    if selected != [] then Timeline(selected) else Message(NoDataMessage)
  }

  predicate NoDuplicates(s: seq<Date>)
  {
    forall i, j :: 0 <= i < j < |s| ==> s[i] != s[j]
  }

  predicate Sorted(s: seq<Date>)
  {
    forall i, j :: 0 <= i < j < |s| ==> s[i] <= s[j]
  }

  predicate Increasing(s: seq<Date>)
  {
    forall i, j :: 0 <= i < j < |s| ==> s[i] < s[j]
  }

  /** The distinct depart dates of the rows, each once (the `unique()` step). */
  method UniqueDates(rows: seq<Row>) returns (u: seq<Date>)
    ensures NoDuplicates(u)
    ensures forall d :: d in u <==> Offered(rows, d)
  {
    u := [];
    for i := 0 to |rows|
      invariant NoDuplicates(u)
      invariant forall d :: d in u <==> exists k :: 0 <= k < i && DepartsOn(rows[k], d)
    {
      if rows[i].depart.Some? && rows[i].depart.value.date !in u {
        u := u + [rows[i].depart.value.date];
      }
    }
  }

  /** Sorts the array ascending in place (the `sort()` step); the elements are only rearranged. */
  method SortInPlace(a: array<Date>)
    modifies a
    ensures Sorted(a[..])
    ensures multiset(a[..]) == old(multiset(a[..]))
  {
    for i := 0 to a.Length
      invariant forall p, q :: 0 <= p < q < i ==> a[p] <= a[q]
      invariant multiset(a[..]) == old(multiset(a[..]))
    {
      var j := i;
      while j > 0 && a[j - 1] > a[j]
        invariant 0 <= j <= i
        invariant forall p, q :: 0 <= p < q <= i && p != j && q != j ==> a[p] <= a[q]
        invariant forall q :: j < q <= i ==> a[j] < a[q]
        invariant multiset(a[..]) == old(multiset(a[..]))
      {
        a[j - 1], a[j] := a[j], a[j - 1];
        j := j - 1;
      }
    }
  }

  lemma {:induction false} DistinctCount(t: seq<Date>, x: Date)
    requires NoDuplicates(t)
    ensures multiset(t)[x] <= 1
  {
    if t != [] {
      var front := t[..|t| - 1];
      assert t == front + [t[|t| - 1]];
      DistinctCount(front, x);
      if x == t[|t| - 1] {
        assert x !in front;
      }
    }
  }

  lemma RepeatCount(s: seq<Date>, i: nat, j: nat)
    requires i < j < |s| && s[i] == s[j]
    ensures multiset(s)[s[i]] >= 2
  {
    assert s == s[..i] + [s[i]] + s[i + 1..j] + [s[j]] + s[j + 1..];
  }

  /** Rearranging a duplicate-free sequence leaves it duplicate-free. */
  lemma PermutationDistinct(s: seq<Date>, t: seq<Date>)
    requires multiset(s) == multiset(t) && NoDuplicates(t)
    ensures NoDuplicates(s)
  {
    forall i, j | 0 <= i < j < |s|
      ensures s[i] != s[j]
    {
      if s[i] == s[j] {
        RepeatCount(s, i, j);
        DistinctCount(t, s[i]);
      }
    }
  }

  /**
   * Two ascending duplicate-free lists with the same elements are equal: the
   * option list is fully determined by the set of depart dates.
   */
  lemma {:induction false} IncreasingUnique(s: seq<Date>, t: seq<Date>)
    requires Increasing(s) && Increasing(t)
    requires forall d :: d in s <==> d in t
    ensures s == t
  {
    assert s != [] ==> s[0] in s && s[0] in t;
    assert t != [] ==> t[0] in t && t[0] in s;
    if s != [] {
      assert s[0] == t[0];
      forall d
        ensures d in s[1..] <==> d in t[1..]
      {
        if d in s[1..] {
          assert d in t && d != t[0];
        }
        if d in t[1..] {
          assert d in s && d != s[0];
        }
      }
      IncreasingUnique(s[1..], t[1..]);
      assert s == [s[0]] + s[1..] && t == [t[0]] + t[1..];
    }
  }

  /** The dates of the options after the leading "Select All", in option order. */
  function OptionDates(options: seq<Choice>): seq<Date>
    requires |options| >= 1
    requires forall k :: 1 <= k < |options| ==> options[k].OnDate?
  {
    seq(|options| - 1, k requires 0 <= k < |options| - 1 => options[k + 1].date)
  }

  /** Reading back the options built from a date list gives the list. */
  lemma OptionsOfDates(dates: seq<Date>, options: seq<Choice>)
    requires options == [SelectAll] + seq(|dates|, i requires 0 <= i < |dates| => OnDate(dates[i]))
    ensures forall k :: 1 <= k < |options| ==> options[k].OnDate?
    ensures OptionDates(options) == dates
    ensures forall d :: OnDate(d) in options <==> d in dates
  {
    forall d ensures OnDate(d) in options <==> d in dates {
      if d in dates {
        var i :| 0 <= i < |dates| && dates[i] == d;
        assert options[i + 1] == OnDate(d);
      }
    }
  }

  /**
   * The date selector's options: "Select All" first, then every distinct
   * depart date of the rows exactly once, in ascending order.
   */
  method DateOptions(rows: seq<Row>) returns (options: seq<Choice>)
    ensures |options| >= 1 && options[0] == SelectAll
    ensures forall k :: 1 <= k < |options| ==> options[k].OnDate?
    ensures Increasing(OptionDates(options))
    ensures forall d :: OnDate(d) in options <==> Offered(rows, d)
  {
    var u := UniqueDates(rows);
    var a := new Date[|u|](i requires 0 <= i < |u| => u[i]);
    assert a[..] == u;
    SortInPlace(a);
    var dates := a[..];
    PermutationDistinct(dates, u);
    assert Increasing(dates);
    assert forall d :: d in dates <==> d in u by {
      forall d ensures d in dates <==> d in u {
        assert d in dates <==> d in multiset(dates);
        assert d in u <==> d in multiset(u);
      }
    }
    options := [SelectAll] + seq(|dates|, i requires 0 <= i < |dates| => OnDate(dates[i]));
    OptionsOfDates(dates, options);
  }
}
