/**
 * The result page of the frontend (frontend/src/Result.jsx): the two tables
 * of result lines kept in React state, the shared set of csq values already
 * received, and what happens to them when a line arrives, when the tables
 * are cleared, when a row is deleted and when a table is filtered.
 */
module ResultView {
  import opened Options
  import opened Strings
  import Evaluator

  const Marker := "csq="

  // ---------------------------------------------------------------------------
  // getCsq

  /** The pattern `csq=(\d+)` matches at `i`. */
  predicate MatchAt(s: string, i: int)
  {
    OccursAt(s, Marker, i) && i + |Marker| < |s| && IsDigit(s[i + |Marker|])
  }

  /** The leftmost match at or after `from`. */
  function FirstMatch(s: string, from: nat): (r: Option<nat>)
    requires from <= |s|
    ensures r.Some? ==> from <= r.value < |s| && MatchAt(s, r.value)
    ensures r.Some? ==> forall j :: from <= j < r.value ==> !MatchAt(s, j)
    ensures r.None? ==> forall j :: from <= j ==> !MatchAt(s, j)
    decreases |s| - from
  {
    if from == |s| then None
    else if MatchAt(s, from) then Some(from)
    else FirstMatch(s, from + 1)
  }

  /** The leftmost match starts at `i`. */
  predicate FirstMatchAt(s: string, i: int)
  {
    MatchAt(s, i) && forall j :: 0 <= j < i ==> !MatchAt(s, j)
  }

  /** The digits captured by the leftmost match: a non-empty, maximal run of digits right after "csq=". */
  function GetCsq(row: string): (r: Option<string>)
    ensures r.None? <==> forall j :: !MatchAt(row, j)
    ensures r.Some? ==> exists i :: FirstMatchAt(row, i) && r.value == DigitRun(row, i + |Marker|)
    ensures r.Some? ==> |r.value| > 0 && AllDigits(r.value)
  {
    match FirstMatch(row, 0)
    case None => None
    case Some(i) =>
      assert FirstMatchAt(row, i);
      Some(DigitRun(row, i + |Marker|))
  }

  /** No match of "csq=" starts inside a prefix free of 'q'. */
  lemma NoEarlyMarker(p: string, d: string, j: nat)
    requires 'q' !in p && j < |p|
    ensures !MatchAt(p + Marker + d, j)
  {
    var s := p + Marker + d;
    if j + 2 < |p| {
      assert s[j + 2] == p[j + 2];
    } else {
      assert s[j + 2] == Marker[j + 2 - |p|];
    }
    assert s[j..j + 4][2] != Marker[2];
  }

  /** The number column of the table shows the id of the campaign the link points to. */
  lemma GetCsqOfUrl(id: nat)
    ensures GetCsq(Evaluator.CampaignUrl(id)) == Some(IntToString(id))
  {
    var digits := IntToString(id);
    var url := Evaluator.UrlBase + Marker + digits;
    var n := |Evaluator.UrlBase|;
    assert GetCsq(url) == Some(digits) by {
      UrlFirstMatch(digits);
      GetCsqAt(url, n);
      assert url[n + 4..n + 4 + |digits|] == digits;
      DigitRunIs(url, n + 4, digits);
    }
    assert url == Evaluator.CampaignUrl(id);
  }

  /** In a campaign URL the leftmost `csq=\d` match is the one after the URL base. */
  lemma UrlFirstMatch(digits: string)
    requires |digits| > 0 && AllDigits(digits)
    ensures FirstMatchAt(Evaluator.UrlBase + Marker + digits, |Evaluator.UrlBase|)
  {
    var url := Evaluator.UrlBase + Marker + digits;
    var n := |Evaluator.UrlBase|;
    assert 'q' !in Evaluator.UrlBase by {
      assert 'q' !in Evaluator.Host && 'q' !in Evaluator.UserArea && 'q' !in Evaluator.DetailPage;
    }
    forall j | 0 <= j < n
      ensures !MatchAt(url, j)
    {
      NoEarlyMarker(Evaluator.UrlBase, digits, j);
    }
    assert url[n..n + 4] == Marker;
    assert url[n + 4] == digits[0];
  }

  /** When the leftmost match starts at `i`, `getCsq` gives the digit run after its "csq=". */
  lemma GetCsqAt(row: string, i: nat)
    requires FirstMatchAt(row, i)
    ensures GetCsq(row) == Some(DigitRun(row, i + |Marker|))
  {
    assert FirstMatch(row, 0) == Some(i);
  }

  // ---------------------------------------------------------------------------
  // Sorting by the time field

  const FieldSeparator := " & "

  /** The fifth " & " field, which holds the participation time (empty when the row has fewer fields). */
  function SortKey(row: string): string
  {
    var fields := Split(row, FieldSeparator);
    if |fields| > 4 then fields[4] else ""
  }

  /** The key the rows are sorted by is the participation time of the line the crawler produced. */
  lemma SortKeyIsTime(id: int, p: Evaluator.Page)
    requires '&' !in Evaluator.ShippingType(p.sections) && '&' !in Evaluator.ShopName(p)
    requires '&' !in Evaluator.ParticipationTime(p)
    ensures SortKey(Evaluator.ResultLine(id, p)) == Evaluator.ParticipationTime(p)
  {
    Evaluator.ResultLineSplits(id, p);
  }

  /** `localeCompare(a, b) <= 0`, abstracted: any total preorder on strings. */
  ghost predicate TotalPreorder(le: (string, string) -> bool)
  {
    (forall a, b :: le(a, b) || le(b, a))
    && (forall a, b, c :: le(a, b) && le(b, c) ==> le(a, c))
  }

  predicate SortedBy(rows: seq<string>, le: (string, string) -> bool)
  {
    forall i, j :: 0 <= i < j < |rows| ==> le(SortKey(rows[i]), SortKey(rows[j]))
  }

  /** Places `x` into a list after every leading row whose key precedes it. */
  function Insert(x: string, s: seq<string>, le: (string, string) -> bool): (r: seq<string>)
    ensures multiset(r) == multiset(s) + multiset{x}
  {
    if |s| == 0 then [x]
    else if le(SortKey(x), SortKey(s[0])) then
      assert s == [s[0]] + s[1..];
      [x] + s
    else
      assert s == [s[0]] + s[1..];
      [s[0]] + Insert(x, s[1..], le)
  }

  /** Every row of `Insert(x, s)` has a key that `a` precedes when `x` and every row of `s` do. */
  lemma InsertAbove(a: string, x: string, s: seq<string>, le: (string, string) -> bool)
    requires le(a, SortKey(x)) && forall k :: 0 <= k < |s| ==> le(a, SortKey(s[k]))
    ensures forall k :: 0 <= k < |Insert(x, s, le)| ==> le(a, SortKey(Insert(x, s, le)[k]))
  {
    var t := Insert(x, s, le);
    forall k | 0 <= k < |t|
      ensures le(a, SortKey(t[k]))
    {
      assert t[k] in multiset(t);
      if t[k] != x {
        assert t[k] in multiset(s);
        var j :| 0 <= j < |s| && s[j] == t[k];
      }
    }
  }

  /** A row whose key precedes every key of a sorted list can head it. */
  lemma SortedCons(h: string, t: seq<string>, le: (string, string) -> bool)
    requires SortedBy(t, le) && forall k :: 0 <= k < |t| ==> le(SortKey(h), SortKey(t[k]))
    ensures SortedBy([h] + t, le)
  {
    var u := [h] + t;
    forall i, j | 0 <= i < j < |u|
      ensures le(SortKey(u[i]), SortKey(u[j]))
    {
      if i == 0 {
        HeadAndTail(h, t, j);
      } else {
        HeadAndTail(h, t, i);
        HeadAndTail(h, t, j);
      }
    }
  }

  lemma HeadAndTail(h: string, t: seq<string>, j: int)
    requires 0 < j <= |t|
    ensures ([h] + t)[0] == h && ([h] + t)[j] == t[j - 1]
  {
  }

  /** Inserting into a sorted list keeps it sorted. */
  lemma {:induction false} InsertSorted(x: string, s: seq<string>, le: (string, string) -> bool)
    ensures TotalPreorder(le) && SortedBy(s, le) ==> SortedBy(Insert(x, s, le), le)
  {
    if TotalPreorder(le) && SortedBy(s, le) && |s| > 0 && !le(SortKey(x), SortKey(s[0])) {
      var a := SortKey(s[0]);
      var rest := s[1..];
      InsertSorted(x, rest, le);
      assert le(a, SortKey(x));
      assert forall k :: 0 <= k < |rest| ==> le(a, SortKey(rest[k])) by {
        forall k | 0 <= k < |rest|
          ensures le(a, SortKey(rest[k]))
        {
          assert rest[k] == s[k + 1];
        }
      }
      InsertAbove(a, x, rest, le);
      SortedCons(s[0], Insert(x, rest, le), le);
    }
  }

  /** The array sort of Result.jsx:33-37, as an insertion sort. */
  function Sort(xs: seq<string>, le: (string, string) -> bool): (r: seq<string>)
    ensures multiset(r) == multiset(xs)
    ensures TotalPreorder(le) ==> SortedBy(r, le)
  {
    if |xs| == 0 then []
    else
      assert xs == [xs[0]] + xs[1..];
      var rest := Sort(xs[1..], le);
      InsertSorted(xs[0], rest, le);
      Insert(xs[0], rest, le)
  }

  // ---------------------------------------------------------------------------
  // insertUniqueSorted

  /** `arr.filter((item) => getCsq(item) !== csq)` */
  function WithoutCsq(rows: seq<string>, c: string): (r: seq<string>)
    ensures forall k :: 0 <= k < |r| ==> GetCsq(r[k]) != Some(c)
    ensures forall row {:trigger multiset(r)[row]} :: multiset(r)[row] == if GetCsq(row) == Some(c) then 0 else multiset(rows)[row]
  {
    if |rows| == 0 then []
    else
      assert rows == [rows[0]] + rows[1..];
      (if GetCsq(rows[0]) == Some(c) then [] else [rows[0]]) + WithoutCsq(rows[1..], c)
  }

  datatype Inserted = Inserted(rows: seq<string>, fetched: set<string>)

  /**
   * Result.jsx:27-41: a line without a csq, or whose csq was received before,
   * leaves the table and the seen set alone; otherwise the csq is recorded,
   * rows with the same csq are dropped, the line is added and the table is
   * sorted by time.
   */
  function InsertUniqueSorted(arr: seq<string>, item: string, fetched: set<string>, le: (string, string) -> bool): (r: Inserted)
    ensures GetCsq(item).None? || GetCsq(item).value in fetched ==> r == Inserted(arr, fetched)
    ensures GetCsq(item).Some? && GetCsq(item).value !in fetched ==>
              && r.fetched == fetched + {GetCsq(item).value}
              && multiset(r.rows) == multiset(WithoutCsq(arr, GetCsq(item).value)) + multiset{item}
              && (TotalPreorder(le) ==> SortedBy(r.rows, le))
              && multiset(r.rows)[item] == 1
              && (forall k :: 0 <= k < |r.rows| && GetCsq(r.rows[k]) == GetCsq(item) ==> r.rows[k] == item)
  {
    match GetCsq(item)
    case None => Inserted(arr, fetched)
    case Some(c) =>
      if c in fetched then Inserted(arr, fetched)
      else
        var kept := WithoutCsq(arr, c);
        var rows := Sort(kept + [item], le);
        OnlyItemHasCsq(kept, item, c, rows);
        Inserted(rows, fetched + {c})
  }

  /** Once every other row with csq `c` is gone, the inserted item is the one row left with it. */
  lemma OnlyItemHasCsq(kept: seq<string>, item: string, c: string, rows: seq<string>)
    requires GetCsq(item) == Some(c)
    requires forall row :: GetCsq(row) == Some(c) ==> multiset(kept)[row] == 0
    requires multiset(rows) == multiset(kept) + multiset{item}
    ensures multiset(rows)[item] == 1
    ensures forall k :: 0 <= k < |rows| && GetCsq(rows[k]) == Some(c) ==> rows[k] == item
  {
    forall k | 0 <= k < |rows| && GetCsq(rows[k]) == Some(c)
      ensures rows[k] == item
    {
      assert rows[k] in multiset(rows);
    }
  }

  // ---------------------------------------------------------------------------
  // The page state

  /** The two tables and `fetchedCsq`, which both tables share. */
  datatype View = View(hidden: seq<string>, public: seq<string>, fetched: set<string>)

  datatype Kind = HiddenLine | PublicLine | Other

  /** Result.jsx:112-115: a hidden or public line goes into its table; other events leave the tables alone. */
  function Receive(v: View, kind: Kind, data: string, le: (string, string) -> bool): (r: View)
    ensures kind != HiddenLine ==> r.hidden == v.hidden
    ensures kind != PublicLine ==> r.public == v.public
    ensures v.fetched <= r.fetched
  {
    match kind
    case HiddenLine =>
      var ins := InsertUniqueSorted(v.hidden, data, v.fetched, le);
      View(ins.rows, v.public, ins.fetched)
    case PublicLine =>
      var ins := InsertUniqueSorted(v.public, data, v.fetched, le);
      View(v.hidden, ins.rows, ins.fetched)
    case Other => v
  }

  /** Result.jsx:53-60 */
  function Clear(v: View): (r: View)
    ensures r.hidden == [] && r.public == [] && r.fetched == {}
  {
    View([], [], {})
  }

  /** The rows of both tables together. */
  function Rows(v: View): multiset<string>
  {
    multiset(v.hidden) + multiset(v.public)
  }

  /**
   * Every row of either table carries a csq that was recorded, appears once,
   * and is the only row with that csq.
   */
  ghost predicate Tidy(v: View)
  {
    && (forall r :: r in Rows(v) ==> GetCsq(r).Some? && GetCsq(r).value in v.fetched)
    && (forall r :: Rows(v)[r] <= 1)
    && (forall r1, r2 :: r1 in Rows(v) && r2 in Rows(v) && GetCsq(r1) == GetCsq(r2) ==> r1 == r2)
  }

  lemma ClearIsTidy(v: View)
    ensures Tidy(Clear(v))
  {
    assert Rows(Clear(v)) == multiset{};
  }

  /** A line with a new csq, once the tables are tidy, is removed nowhere and added once. */
  lemma InsertFresh(arr: seq<string>, item: string, fetched: set<string>, le: (string, string) -> bool)
    requires GetCsq(item).Some? && GetCsq(item).value !in fetched
    requires forall r :: r in multiset(arr) ==> GetCsq(r).Some? && GetCsq(r).value in fetched
    ensures multiset(InsertUniqueSorted(arr, item, fetched, le).rows) == multiset(arr) + multiset{item}
    ensures InsertUniqueSorted(arr, item, fetched, le).fetched == fetched + {GetCsq(item).value}
  {
    var c := GetCsq(item).value;
    var kept := WithoutCsq(arr, c);
    forall row
      ensures multiset(kept)[row] == multiset(arr)[row]
    {
      if GetCsq(row) == Some(c) && row in multiset(arr) {
        assert false;
      }
    }
    assert multiset(kept) == multiset(arr);
  }

  /** Adding one row whose csq is new to tidy tables, and recording the csq, keeps them tidy. */
  lemma TidyAdd(v: View, w: View, data: string)
    requires Tidy(v) && GetCsq(data).Some? && GetCsq(data).value !in v.fetched
    requires Rows(w) == Rows(v) + multiset{data} && w.fetched == v.fetched + {GetCsq(data).value}
    ensures Tidy(w)
  {
    assert data !in Rows(v);
  }

  /** A line with a new csq lands in its table, once, and its csq is recorded. */
  lemma ReceiveFresh(v: View, kind: Kind, data: string, le: (string, string) -> bool)
    requires kind != Other
    requires GetCsq(data).Some? && GetCsq(data).value !in v.fetched
    requires forall r :: r in Rows(v) ==> GetCsq(r).Some? && GetCsq(r).value in v.fetched
    ensures Rows(Receive(v, kind, data, le)) == Rows(v) + multiset{data}
    ensures Receive(v, kind, data, le).fetched == v.fetched + {GetCsq(data).value}
  {
    var r := Receive(v, kind, data, le);
    ReceiveInto(v, kind, data, le);
    OneTableGrows(v, r, data);
  }

  /** Adding a row to one table and leaving the other alone adds it to the rows of both. */
  lemma OneTableGrows(v: View, w: View, data: string)
    requires || (multiset(w.hidden) == multiset(v.hidden) + multiset{data} && w.public == v.public)
             || (w.hidden == v.hidden && multiset(w.public) == multiset(v.public) + multiset{data})
    ensures Rows(w) == Rows(v) + multiset{data}
  {
  }

  /** `InsertFresh` on the table the line goes into. */
  lemma ReceiveInto(v: View, kind: Kind, data: string, le: (string, string) -> bool)
    requires kind != Other
    requires GetCsq(data).Some? && GetCsq(data).value !in v.fetched
    requires forall r :: r in Rows(v) ==> GetCsq(r).Some? && GetCsq(r).value in v.fetched
    ensures var r := Receive(v, kind, data, le);
            && r.fetched == v.fetched + {GetCsq(data).value}
            && (kind == HiddenLine ==> multiset(r.hidden) == multiset(v.hidden) + multiset{data})
            && (kind == PublicLine ==> multiset(r.public) == multiset(v.public) + multiset{data})
  {
    if kind == HiddenLine {
      forall x | x in multiset(v.hidden) ensures GetCsq(x).Some? && GetCsq(x).value in v.fetched {
        assert x in Rows(v);
      }
      InsertFresh(v.hidden, data, v.fetched, le);
    } else {
      forall x | x in multiset(v.public) ensures GetCsq(x).Some? && GetCsq(x).value in v.fetched {
        assert x in Rows(v);
      }
      InsertFresh(v.public, data, v.fetched, le);
    }
  }

  /** Receiving lines keeps tidy tables tidy, across the two tables: a csq seen in one is refused by the other. */
  lemma ReceiveKeepsTidy(v: View, kind: Kind, data: string, le: (string, string) -> bool)
    requires Tidy(v)
    ensures Tidy(Receive(v, kind, data, le))
  {
    if kind != Other && GetCsq(data).Some? && GetCsq(data).value !in v.fetched {
      ReceiveFresh(v, kind, data, le);
      TidyAdd(v, Receive(v, kind, data, le), data);
    } else {
      assert Receive(v, kind, data, le) == v;
    }
  }

  /** After clearing, a line is accepted again even if its csq had been received before. */
  lemma ClearThenReceive(v: View, kind: Kind, data: string, le: (string, string) -> bool)
    requires kind != Other && GetCsq(data).Some?
    ensures var r := Receive(Clear(v), kind, data, le);
            r.hidden + r.public == [data] && r.fetched == {GetCsq(data).value}
  {
    var c := Clear(v);
    var r := Receive(c, kind, data, le);
    assert Rows(c) == multiset{};
    ReceiveFresh(c, kind, data, le);
    SingleRow(r.hidden + r.public, data);
  }

  /** The only list holding exactly one copy of `x` and nothing else is `[x]`. */
  lemma SingleRow(all: seq<string>, x: string)
    requires multiset(all) == multiset{x}
    ensures all == [x]
  {
    assert |all| == 1 && all[0] in multiset(all);
  }

  // ---------------------------------------------------------------------------
  // The keyword filter

  /** Result.jsx:162: `data.filter((row) => row.includes(keyword))` */
  function FilterRows(rows: seq<string>, keyword: string): (r: seq<string>)
    ensures forall k :: 0 <= k < |r| ==> Contains(r[k], keyword)
    ensures forall row {:trigger multiset(r)[row]} :: multiset(r)[row] == if Contains(row, keyword) then multiset(rows)[row] else 0
  {
    if |rows| == 0 then []
    else
      assert rows == [rows[0]] + rows[1..];
      (if Contains(rows[0], keyword) then [rows[0]] else []) + FilterRows(rows[1..], keyword)
  }

  /** The filter keeps order: filtering a concatenation concatenates the filtered parts. */
  lemma {:induction false} FilterAppend(a: seq<string>, b: seq<string>, keyword: string)
    ensures FilterRows(a + b, keyword) == FilterRows(a, keyword) + FilterRows(b, keyword)
  {
    if |a| > 0 {
      var head := if Contains(a[0], keyword) then [a[0]] else [];
      assert (a + b)[0] == a[0] && (a + b)[1..] == a[1..] + b;
      assert FilterRows(a + b, keyword) == head + FilterRows(a[1..] + b, keyword);
      assert FilterRows(a, keyword) == head + FilterRows(a[1..], keyword);
      FilterAppend(a[1..], b, keyword);
    } else {
      assert a + b == b;
    }
  }

  /** An empty keyword keeps every row. */
  lemma {:induction false} FilterEmptyKeepsAll(rows: seq<string>)
    ensures FilterRows(rows, "") == rows
  {
    if |rows| > 0 {
      EmptyIsContained(rows[0]);
      FilterEmptyKeepsAll(rows[1..]);
    }
  }

  // ---------------------------------------------------------------------------
  // Deleting a row

  /** `findIndex((item) => item === row)`: the first position holding `row`, or -1. */
  function FindIndex(rows: seq<string>, row: string): (r: int)
    ensures -1 <= r < |rows|
    ensures r == -1 <==> row !in rows
    ensures r >= 0 ==> rows[r] == row && forall j :: 0 <= j < r ==> rows[j] != row
  {
    if |rows| == 0 then -1
    else if rows[0] == row then 0
    else
      var k := FindIndex(rows[1..], row);
      if k == -1 then -1 else k + 1
  }

  /** `updated.splice(start, 1)`: a negative start counts from the end, a start past the end removes nothing. */
  function Splice(xs: seq<string>, start: int): (r: seq<string>)
    ensures 0 <= start < |xs| ==> r == xs[..start] + xs[start + 1..]
    ensures start >= |xs| ==> r == xs
    ensures -|xs| <= start < 0 ==> r == xs[..|xs| + start] + xs[|xs| + start + 1..]
    ensures start < -|xs| && |xs| > 0 ==> r == xs[1..]
    ensures |xs| > 0 && start < 0 ==> |r| == |xs| - 1
  {
    var k := if start >= 0 then start else if |xs| + start < 0 then 0 else |xs| + start;
    if k >= |xs| then xs else xs[..k] + xs[k + 1..]
  }

  /**
   * Result.jsx:165-172 and 209 as written: the index of the clicked row is
   * looked up in the list the table was rendered from, and spliced out of the
   * list current when the state update runs.
   */
  function DeleteAsWritten(rendered: seq<string>, current: seq<string>, row: string): (r: seq<string>)
    ensures forall k :: FirstRowAt(rendered, row, k) && k < |current| ==> r == current[..k] + current[k + 1..]
    ensures forall k :: FirstRowAt(rendered, row, k) && k >= |current| ==> r == current
    ensures row !in rendered && |current| > 0 ==> r == current[..|current| - 1]
  {
    var i := FindIndex(rendered, row);
    FindIndexFirst(rendered, row);
    assert i == -1 && |current| > 0 ==> current[..|current| - 1] + current[|current|..] == current[..|current| - 1];
    Splice(current, i)
  }

  /** The first copy of `row` in `rows` is at `k`. */
  predicate FirstRowAt(rows: seq<string>, row: string, k: int)
  {
    0 <= k < |rows| && rows[k] == row && row !in rows[..k]
  }

  /** `indexOf` finds exactly the first copy. */
  lemma FindIndexFirst(rows: seq<string>, row: string)
    ensures forall k :: FirstRowAt(rows, row, k) ==> FindIndex(rows, row) == k
  {
  }

  /** The deletion looking the row up in the list it removes from: the first copy of the row goes, nothing else. */
  function DeleteRow(current: seq<string>, row: string): (r: seq<string>)
    ensures row in current ==> multiset(r) == multiset(current) - multiset{row}
    ensures row !in current ==> r == current
  {
    var k := FindIndex(current, row);
    if k == -1 then current
    else
      assert current == current[..k] + [row] + current[k + 1..];
      Splice(current, k)
  }

  /** Deleting keeps the other rows in their order. */
  lemma DeleteRowKeepsOrder(current: seq<string>, row: string)
    requires row in current
    ensures var k := FindIndex(current, row);
            DeleteRow(current, row) == current[..k] + current[k + 1..]
  {
  }

  /** When no update arrived between rendering and the click, the code as written deletes the clicked row. */
  lemma DeleteAsWrittenWhenFresh(current: seq<string>, row: string)
    requires row in current
    ensures DeleteAsWritten(current, current, row) == DeleteRow(current, row)
  {
  }

  /**
   * A line inserted (sorted before the clicked row) after the table was
   * rendered shifts the positions: the code as written then deletes the new
   * line and keeps the row the user clicked.
   */
  lemma DeleteAsWrittenStale()
    ensures var rendered := ["a", "c"];
            var current := ["a", "b", "c"];
            DeleteAsWritten(rendered, current, "c") == ["a", "c"]
            && DeleteRow(current, "c") == ["a", "b"]
  {
    var rendered := ["a", "c"];
    var current := ["a", "b", "c"];
    assert FindIndex(rendered, "c") == 1;
    assert FindIndex(current, "c") == 2;
  }

  /** Deleting a row keeps tidy tables tidy. */
  lemma DeleteKeepsTidy(v: View, row: string)
    requires Tidy(v)
    ensures Tidy(v.(hidden := DeleteRow(v.hidden, row)))
    ensures Tidy(v.(public := DeleteRow(v.public, row)))
  {
    var h := v.(hidden := DeleteRow(v.hidden, row));
    var p := v.(public := DeleteRow(v.public, row));
    assert Rows(h) <= Rows(v);
    assert Rows(p) <= Rows(v);
  }

  /** The deletion the page actually performs, with a possibly stale index, also keeps tidy tables tidy. */
  lemma DeleteAsWrittenKeepsTidy(v: View, rendered: seq<string>, row: string)
    requires Tidy(v)
    ensures Tidy(v.(hidden := DeleteAsWritten(rendered, v.hidden, row)))
    ensures Tidy(v.(public := DeleteAsWritten(rendered, v.public, row)))
  {
    var i := FindIndex(rendered, row);
    SpliceShrinks(v.hidden, i);
    SpliceShrinks(v.public, i);
    var h := v.(hidden := DeleteAsWritten(rendered, v.hidden, row));
    var p := v.(public := DeleteAsWritten(rendered, v.public, row));
    assert Rows(h) <= Rows(v);
    assert Rows(p) <= Rows(v);
  }

  /** `splice` only ever takes rows out. */
  lemma SpliceShrinks(xs: seq<string>, start: int)
    ensures multiset(Splice(xs, start)) <= multiset(xs)
  {
    var k := if start >= 0 then start else if |xs| + start < 0 then 0 else |xs| + start;
    if k < |xs| {
      assert Splice(xs, start) == xs[..k] + xs[k + 1..];
      CutShrinks(xs, k);
    }
  }

  lemma CutShrinks(xs: seq<string>, k: nat)
    requires k < |xs|
    ensures multiset(xs[..k] + xs[k + 1..]) <= multiset(xs)
  {
    assert xs == xs[..k] + [xs[k]] + xs[k + 1..];
  }
}
