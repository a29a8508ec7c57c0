/**
 * The search form of the frontend (frontend/src/App.jsx): the day buttons,
 * toggling a day, and what pressing submit does: reject the form with the
 * first failed check, or build the query string for the result page.
 */
module Form {
  import opened Options
  import opened Strings
  import Evaluator
  import Broadcast

  const DayCount := 31

  /** `s.padStart(width, "0")` */
  function PadStart(s: string, width: nat): (r: string)
    ensures |r| == if |s| >= width then |s| else width
    ensures |s| <= |r| && r[|r| - |s|..] == s
    ensures forall k :: 0 <= k < |r| - |s| ==> r[k] == '0'
  {
    if |s| >= width then s else seq(width - |s|, _ => '0') + s
  }

  /** The label of the button for day `n`: the day zero-padded to two digits, then "일". */
  function DayLabel(n: nat): string
    requires 1 <= n <= DayCount
  {
    PadStart(NatToString(n), 2) + "일"
  }

  /** App.jsx:14 */
  function Days(): (r: seq<string>)
    ensures |r| == DayCount
    ensures forall i :: 0 <= i < DayCount ==> r[i] == DayLabel(i + 1)
  {
    seq(DayCount, i requires 0 <= i < DayCount => DayLabel(i + 1))
  }

  /** Two digits followed by "일", the shape of a day token on a campaign page. */
  predicate DayShaped(t: string)
  {
    |t| == 3 && IsDigit(t[0]) && IsDigit(t[1]) && t[2] == '일'
  }

  /** The day number a day-shaped string names. */
  function DayValue(t: string): nat
    requires DayShaped(t)
  {
    10 * DigitValue(t[0]) + DigitValue(t[1])
  }

  lemma DigitCharOfValue(c: char)
    requires IsDigit(c)
    ensures DigitChar(DigitValue(c)) == c
  {
  }

  /** Each label is two digits and "일", naming its own day. */
  lemma DayLabelShape(n: nat)
    requires 1 <= n <= DayCount
    ensures DayShaped(DayLabel(n)) && DayValue(DayLabel(n)) == n
  {
    var t := DayLabel(n);
    if n < 10 {
      assert NatToString(n) == [DigitChar(n)];
      assert t == ['0', DigitChar(n), '일'];
    } else {
      assert NatToString(n / 10) == [DigitChar(n / 10)];
      assert NatToString(n) == [DigitChar(n / 10), DigitChar(n % 10)];
      assert t == [DigitChar(n / 10), DigitChar(n % 10), '일'];
    }
  }

  /** A day-shaped string is fixed by its day number. */
  lemma DayShapedByValue(a: string, b: string)
    requires DayShaped(a) && DayShaped(b) && DayValue(a) == DayValue(b)
    ensures a == b
  {
    var x0, x1 := DigitValue(a[0]), DigitValue(a[1]);
    var y0, y1 := DigitValue(b[0]), DigitValue(b[1]);
    assert x0 == (10 * x0 + x1) / 10 && y0 == (10 * y0 + y1) / 10;
    assert x1 == (10 * x0 + x1) % 10 && y1 == (10 * y0 + y1) % 10;
    DigitCharOfValue(a[0]);
    DigitCharOfValue(a[1]);
    DigitCharOfValue(b[0]);
    DigitCharOfValue(b[1]);
  }

  /** The 31 labels are distinct and each names its position: "01일" first, "31일" last. */
  lemma DaysInOrder()
    ensures forall i :: 0 <= i < DayCount ==> DayShaped(Days()[i]) && DayValue(Days()[i]) == i + 1
    ensures forall i, j :: 0 <= i < j < DayCount ==> Days()[i] != Days()[j]
  {
    forall i | 0 <= i < DayCount
      ensures DayShaped(Days()[i]) && DayValue(Days()[i]) == i + 1
    {
      DayLabelShape(i + 1);
    }
  }

  /** A day-shaped string is a button label exactly when it names a day from 1 to 31. */
  lemma InDaysIff(t: string)
    requires DayShaped(t)
    ensures t in Days() <==> 1 <= DayValue(t) <= DayCount
  {
    DaysInOrder();
    if 1 <= DayValue(t) <= DayCount {
      var i := DayValue(t) - 1;
      DayShapedByValue(Days()[i], t);
    }
  }

  /** Every label is matched whole by the backend's day pattern, so a selected label selects that day on a campaign page. */
  lemma LabelIsDayToken(i: nat)
    requires i < DayCount
    ensures Evaluator.DayToken(Days()[i]) == Some(Days()[i])
  {
    var t := Days()[i];
    DayLabelShape(i + 1);
    assert Evaluator.DayTokenAt(t, 0);
    assert t[0..3] == t;
  }

  // ---------------------------------------------------------------------------
  // toggleDay

  /** `prev.filter((d) => d !== day)` */
  function Without(s: seq<string>, day: string): (r: seq<string>)
    ensures multiset(r) == multiset(s)[day := 0]
  {
    if |s| == 0 then []
    else
      assert s == [s[0]] + s[1..];
      (if s[0] == day then [] else [s[0]]) + Without(s[1..], day)
  }

  lemma {:induction false} WithoutAbsent(s: seq<string>, day: string)
    requires day !in s
    ensures Without(s, day) == s
  {
    if |s| > 0 {
      WithoutAbsent(s[1..], day);
    }
  }

  /** App.jsx:28-31: a selected day is removed (every copy), any other day is appended. */
  function ToggleDay(selected: seq<string>, day: string): (r: seq<string>)
    ensures day in r <==> day !in selected
    ensures multiset(r) == if day in selected then multiset(selected)[day := 0] else multiset(selected) + multiset{day}
    ensures day !in selected ==> r == selected + [day]
    ensures day in selected ==> r == Without(selected, day)
  {
    if day in selected then
      var r := Without(selected, day);
      assert multiset(r)[day] == 0;
      r
    else selected + [day]
  }

  /** Toggling a day that was not selected, then toggling it again, gives back the list. */
  lemma ToggleTwiceAbsent(selected: seq<string>, day: string)
    requires day !in selected
    ensures ToggleDay(ToggleDay(selected, day), day) == selected
  {
    assert selected + [day] == selected + [day];
    WithoutAbsent(selected, day);
    assert Without(selected + [day], day) == Without(selected, day) by {
      WithoutAppend(selected, [day], day);
    }
  }

  lemma {:induction false} WithoutAppend(a: seq<string>, b: seq<string>, day: string)
    ensures Without(a + b, day) == Without(a, day) + Without(b, day)
  {
    if |a| > 0 {
      var head := if a[0] == day then [] else [a[0]];
      assert (a + b)[0] == a[0] && (a + b)[1..] == a[1..] + b;
      assert Without(a + b, day) == head + Without(a[1..] + b, day);
      assert Without(a, day) == head + Without(a[1..], day);
      WithoutAppend(a[1..], b, day);
    } else {
      assert a + b == b;
    }
  }

  /**
   * Toggling a selected day twice moves it to the end: a list without
   * duplicates keeps its days but not its order.
   */
  lemma ToggleTwicePresent(selected: seq<string>, day: string)
    requires day in selected
    ensures ToggleDay(ToggleDay(selected, day), day) == Without(selected, day) + [day]
    ensures multiset(selected)[day] == 1 ==>
              multiset(ToggleDay(ToggleDay(selected, day), day)) == multiset(selected)
  {
    var once := Without(selected, day);
    assert day !in multiset(once);
    assert ToggleDay(selected, day) == once;
    if multiset(selected)[day] == 1 {
      assert multiset(selected)[day := 0] + multiset{day} == multiset(selected);
    }
  }

  // ---------------------------------------------------------------------------
  // handleSubmit

  datatype FormState = FormState(
    cookie: string,
    selectedDays: seq<string>,
    exclude: string,
    useFullRange: bool
  )

  datatype Rejection = MissingCookie | NoDaySelected | EmptyRange

  /** The names of the query parameters of the result page. */
  datatype Name = SessionCookie | SelectedDays | ExcludeKeywords | UseFullRange | StartId | EndId

  /** The query string handed to the result page; the id bounds are present only in manual mode. */
  datatype Query = Query(
    sessionCookie: string,
    selectedDays: string,
    excludeKeywords: string,
    useFullRange: string,
    bounds: Option<(string, string)>
  )

  datatype Submission = Rejected(reason: Rejection) | Navigate(query: Query)

  /** `URLSearchParams.get(name)` */
  function Get(q: Query, name: Name): Option<string>
  {
    match name
    case SessionCookie => Some(q.sessionCookie)
    case SelectedDays => Some(q.selectedDays)
    case ExcludeKeywords => Some(q.excludeKeywords)
    case UseFullRange => Some(q.useFullRange)
    case StartId => if q.bounds.Some? then Some(q.bounds.value.0) else None
    case EndId => if q.bounds.Some? then Some(q.bounds.value.1) else None
  }

  function BoolText(b: bool): string
  {
    if b then "true" else "false"
  }

  /**
   * App.jsx:34-78. `manualStart` and `manualEnd` are the numbers read from
   * the two id inputs (0 when an input is absent or empty).
   */
  function Submit(f: FormState, manualStart: int, manualEnd: int): (r: Submission)
    ensures r == Rejected(MissingCookie) <==> f.cookie == ""
    ensures r == Rejected(NoDaySelected) <==> f.cookie != "" && f.selectedDays == []
    ensures r == Rejected(EmptyRange) <==>
              f.cookie != "" && f.selectedDays != [] && !f.useFullRange && manualStart >= manualEnd
    ensures r.Navigate? <==> f.cookie != "" && f.selectedDays != [] && (f.useFullRange || manualStart < manualEnd)
    ensures r.Navigate? ==> Get(r.query, SessionCookie) == Some(f.cookie)
    ensures r.Navigate? ==> Get(r.query, ExcludeKeywords) == Some(f.exclude)
    ensures r.Navigate? ==> (Get(r.query, StartId).Some? <==> !f.useFullRange)
    ensures r.Navigate? ==> (Get(r.query, EndId).Some? <==> !f.useFullRange)
  {
    if f.cookie == "" then Rejected(MissingCookie)
    else if |f.selectedDays| == 0 then Rejected(NoDaySelected)
    else if !f.useFullRange && manualStart >= manualEnd then Rejected(EmptyRange)
    else
      var bounds := if f.useFullRange then None else Some((IntToString(manualStart), IntToString(manualEnd)));
      Navigate(Query(f.cookie, Join(f.selectedDays, ","), f.exclude, BoolText(f.useFullRange), bounds))
  }

  /** A label holds neither ',' nor surrounding whitespace, and is not empty. */
  lemma LabelPlain(n: nat)
    requires 1 <= n <= DayCount
    ensures DayLabel(n) != "" && Trimmed(DayLabel(n)) && ',' !in DayLabel(n)
  {
    DayLabelShape(n);
    ShapedPlain(DayLabel(n));
  }

  lemma ShapedPlain(t: string)
    requires DayShaped(t)
    ensures t != "" && Trimmed(t) && ',' !in t
  {
    assert t == [t[0], t[1], t[2]];
  }

  /** main.py's normaliser turns the ','-joined labels back into the list of labels. */
  lemma SelectedDaysRoundTrip(days: seq<string>)
    requires forall k :: 0 <= k < |days| ==> days[k] in Days()
    ensures Broadcast.Normalise(Broadcast.TextParam(Join(days, ","))) == days
  {
    forall k | 0 <= k < |days|
      ensures days[k] != "" && Trimmed(days[k]) && ',' !in days[k]
    {
      DayPlain(days[k]);
    }
    Broadcast.NormaliseJoin(days);
  }

  /** A day label is a non-empty, stripped piece without a comma. */
  lemma DayPlain(t: string)
    requires t in Days()
    ensures t != "" && Trimmed(t) && ',' !in t
  {
    var i :| 0 <= i < DayCount && Days()[i] == t;
    LabelPlain(i + 1);
  }

  /** In manual mode the two bounds of the query parse back to the numbers entered. */
  lemma BoundsRoundTrip(f: FormState, manualStart: int, manualEnd: int)
    requires Submit(f, manualStart, manualEnd).Navigate? && !f.useFullRange
    ensures var q := Submit(f, manualStart, manualEnd).query;
            && Get(q, StartId).Some? && ParseInt(Get(q, StartId).value) == Some(manualStart)
            && Get(q, EndId).Some? && ParseInt(Get(q, EndId).value) == Some(manualEnd)
  {
    ParseIntToString(manualStart);
    ParseIntToString(manualEnd);
  }

  /**
   * What the backend makes of an accepted form: the joined `selected_days`
   * normalise back into the selected labels and the range flag reads back
   * as itself.
   */
  lemma SubmitRoundTrip(f: FormState, manualStart: int, manualEnd: int)
    requires Submit(f, manualStart, manualEnd).Navigate?
    requires forall k :: 0 <= k < |f.selectedDays| ==> f.selectedDays[k] in Days()
    ensures var q := Submit(f, manualStart, manualEnd).query;
            && Get(q, SelectedDays).Some?
            && Broadcast.Normalise(Broadcast.TextParam(Get(q, SelectedDays).value)) == f.selectedDays
            && Get(q, UseFullRange) == Some(BoolText(f.useFullRange))
  {
    var s := Submit(f, manualStart, manualEnd);
    var joined := Join(f.selectedDays, ",");
    assert Get(s.query, SelectedDays) == Some(joined);
    assert Get(s.query, UseFullRange) == Some(BoolText(f.useFullRange));
    SelectedDaysRoundTrip(f.selectedDays);
  }
}
