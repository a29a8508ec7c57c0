/**
 * The per-session broadcast layer of backend/main.py. Three maps keyed by the
 * session cookie (`active_sessions`, `ongoing_tasks`, `session_results`)
 * are one immutable `Registry`; connecting an observer, its disconnection,
 * relaying one crawler event, the end of a crawl stream and the results query
 * are state transitions over it. Each transition is taken as atomic: the
 * `await`s inside the fan-out loops, where another connection could attach or
 * leave, are not interleaved.
 */
module Broadcast {
  import opened Options
  import opened Strings
  import opened Orchestrator
  import Evaluator

  type SessionKey = string

  /** A connected WebSocket, identified by an opaque number. */
  type Observer = nat

  // ---------------------------------------------------------------------------
  // The request and its normalisation

  /** `selected_days` and `exclude_keywords` arrive either as a JSON list or as one comma-separated string. */
  datatype Param = ListParam(items: seq<string>) | TextParam(text: string)

  /** The first JSON message of a connection (a missing key is given its default). */
  datatype Request = Request(
    cookie: SessionKey,
    days: Param,
    keywords: Param,
    useFullRange: bool,
    startId: Option<int>,
    endId: Option<int>,
    excludeIds: seq<int>
  )

  /** `[s.strip() for s in pieces if s.strip()]`: non-empty, stripped entries, at most one per piece. */
  function StripNonEmpty(pieces: seq<string>): (r: seq<string>)
    ensures forall k :: 0 <= k < |r| ==> r[k] != "" && Trimmed(r[k])
    ensures |r| <= |pieces|
  {
    if |pieces| == 0 then []
    else
      var head := Strip(pieces[0]);
      var rest := StripNonEmpty(pieces[1..]);
      if head == "" then rest
      else
        CleanCons(head, rest);
        [head] + rest
  }

  lemma CleanCons(head: string, rest: seq<string>)
    requires head != "" && Trimmed(head)
    requires forall k :: 0 <= k < |rest| ==> rest[k] != "" && Trimmed(rest[k])
    ensures forall k :: 0 <= k < |rest| + 1 ==> ([head] + rest)[k] != "" && Trimmed(([head] + rest)[k])
  {
    forall k | 0 <= k < |rest| + 1
      ensures ([head] + rest)[k] != "" && Trimmed(([head] + rest)[k])
    {
      if k > 0 {
        assert ([head] + rest)[k] == rest[k - 1];
      }
    }
  }

  /** `x` is what some piece strips to. */
  ghost predicate StrippedPiece(x: string, pieces: seq<string>)
  {
    exists j :: 0 <= j < |pieces| && x == Strip(pieces[j])
  }

  /** Every entry of `r` is what some piece strips to. */
  ghost predicate AllStripped(r: seq<string>, pieces: seq<string>)
  {
    forall k :: 0 <= k < |r| ==> StrippedPiece(r[k], pieces)
  }

  /** Every entry is the stripped form of some piece. */
  lemma {:induction false} StripNonEmptySound(pieces: seq<string>)
    ensures AllStripped(StripNonEmpty(pieces), pieces)
  {
    if |pieces| > 0 {
      var head := Strip(pieces[0]);
      var rest := StripNonEmpty(pieces[1..]);
      StripNonEmptySound(pieces[1..]);
      AllStrippedOfTail(rest, pieces);
      if head != "" {
        AllStrippedCons(rest, pieces);
      }
    }
  }

  lemma AllStrippedOfTail(r: seq<string>, pieces: seq<string>)
    requires |pieces| > 0 && AllStripped(r, pieces[1..])
    ensures AllStripped(r, pieces)
  {
    forall k | 0 <= k < |r|
      ensures StrippedPiece(r[k], pieces)
    {
      var j :| 0 <= j < |pieces[1..]| && r[k] == Strip(pieces[1..][j]);
      assert pieces[1..][j] == pieces[j + 1];
    }
  }

  lemma AllStrippedCons(r: seq<string>, pieces: seq<string>)
    requires |pieces| > 0 && AllStripped(r, pieces)
    ensures AllStripped([Strip(pieces[0])] + r, pieces)
  {
    var r' := [Strip(pieces[0])] + r;
    forall k | 0 <= k < |r'|
      ensures StrippedPiece(r'[k], pieces)
    {
      if k > 0 {
        assert r'[k] == r[k - 1];
      }
    }
  }

  /** Every piece that does not strip to nothing is there, stripped. */
  lemma {:induction false} StripNonEmptyComplete(pieces: seq<string>)
    ensures var r := StripNonEmpty(pieces);
            forall j :: 0 <= j < |pieces| && Strip(pieces[j]) != "" ==> Strip(pieces[j]) in r
  {
    if |pieces| > 0 {
      var tail := pieces[1..];
      var rest := StripNonEmpty(tail);
      var r := StripNonEmpty(pieces);
      StripNonEmptyComplete(tail);
      forall j | 0 <= j < |pieces| && Strip(pieces[j]) != ""
        ensures Strip(pieces[j]) in r
      {
        if j == 0 {
          assert r[0] == Strip(pieces[0]);
        } else {
          assert pieces[j] == tail[j - 1];
          assert Strip(pieces[j]) in rest;
        }
      }
    }
  }

  /**
   * Every entry is the stripped form of some piece, and every piece that
   * does not strip to nothing is there.
   */
  lemma StripNonEmptyExact(pieces: seq<string>)
    ensures var r := StripNonEmpty(pieces);
            && (forall k :: 0 <= k < |r| ==> StrippedPiece(r[k], pieces))
            && (forall j :: 0 <= j < |pieces| && Strip(pieces[j]) != "" ==> Strip(pieces[j]) in r)
  {
    StripNonEmptySound(pieces);
    StripNonEmptyComplete(pieces);
  }

  /** The list comprehension keeps the pieces in order: it distributes over concatenation. */
  lemma {:induction false} StripNonEmptyAppend(a: seq<string>, b: seq<string>)
    ensures StripNonEmpty(a + b) == StripNonEmpty(a) + StripNonEmpty(b)
  {
    if |a| > 0 {
      assert (a + b)[0] == a[0] && (a + b)[1..] == a[1..] + b;
      StripNonEmptyAppend(a[1..], b);
    } else {
      assert a + b == b;
    }
  }

  /**
   * The list form passes through; the string form is split on ',', and each
   * piece that does not strip to nothing is kept, stripped.
   */
  function Normalise(p: Param): (r: seq<string>)
    ensures p.ListParam? ==> r == p.items
    ensures p.TextParam? ==> forall k :: 0 <= k < |r| ==> r[k] != "" && Trimmed(r[k])
  {
    match p
    case ListParam(items) => items
    case TextParam(text) => StripNonEmpty(Split(text, ","))
  }

  /**
   * The string form keeps exactly the pieces between commas that do not
   * strip to nothing, stripped, in their order.
   */
  lemma NormaliseText(text: string, a: seq<string>, b: seq<string>)
    requires Split(text, ",") == a + b
    ensures var r := Normalise(TextParam(text)); var pieces := Split(text, ",");
            && (forall k :: 0 <= k < |r| ==> StrippedPiece(r[k], pieces))
            && (forall j :: 0 <= j < |pieces| && Strip(pieces[j]) != "" ==> Strip(pieces[j]) in r)
            && r == StripNonEmpty(a) + StripNonEmpty(b)
  {
    StripNonEmptyExact(Split(text, ","));
    StripNonEmptyAppend(a, b);
  }

  lemma CommaMarked()
    ensures Marks(",", ',', 0)
  {
  }

  lemma {:induction false} StripNonEmptyKeeps(items: seq<string>)
    requires forall k :: 0 <= k < |items| ==> items[k] != "" && Trimmed(items[k])
    ensures StripNonEmpty(items) == items
  {
    if |items| > 0 {
      StripKeepsTrimmed(items[0]);
      StripNonEmptyKeeps(items[1..]);
    }
  }

  /**
   * Joining labels with ',' (as the form does) and normalising the string
   * gives the labels back, when no label is empty, holds a ',' or has
   * surrounding whitespace.
   */
  lemma NormaliseJoin(items: seq<string>)
    requires forall k :: 0 <= k < |items| ==> items[k] != "" && Trimmed(items[k]) && ',' !in items[k]
    ensures Normalise(TextParam(Join(items, ","))) == items
  {
    if |items| == 0 {
      assert FindFirst("", ",") == None;
      assert Split("", ",") == [""];
    } else {
      CommaMarked();
      SplitJoin(items, ",", ',', 0);
      StripNonEmptyKeeps(items);
    }
  }

  function ConfigOf(req: Request): CrawlConfig
  {
    CrawlConfig(req.cookie, Normalise(req.days), Normalise(req.keywords), req.useFullRange,
                req.startId, req.endId, set x | x in req.excludeIds)
  }

  // ---------------------------------------------------------------------------
  // The campaign id carried by a line

  const FieldSeparator := " & "
  const IdMarker := "csq="

  /** The index of the first field that contains `pat`. */
  function FirstWith(fields: seq<string>, pat: string, from: nat): (r: Option<nat>)
    requires from <= |fields|
    ensures r.Some? ==> from <= r.value < |fields| && Contains(fields[r.value], pat)
    ensures r.Some? ==> forall j :: from <= j < r.value ==> !Contains(fields[j], pat)
    ensures r.None? ==> forall j :: from <= j < |fields| ==> !Contains(fields[j], pat)
    decreases |fields| - from
  {
    if from == |fields| then None
    else if Contains(fields[from], pat) then Some(from)
    else FirstWith(fields, pat, from + 1)
  }

  /**
   * main.py's `csq`: the text after the last "csq=" of the first " & " field
   * that contains "csq=", as an integer; none when there is no such field or
   * the text is not an integer.
   */
  function CsqOf(data: string): (r: Option<int>)
    ensures r.Some? ==> Contains(data, IdMarker)
  {
    if data == "" then None
    else
      var fields := Split(data, FieldSeparator);
      match FirstWith(fields, IdMarker, 0)
      case None => None
      case Some(k) =>
        PartContains(data, FieldSeparator, k, IdMarker);
        ValueAfterLastMarker(fields[k])
  }

  /** `int(field.split("csq=")[-1])`, none when that is not an integer. */
  function ValueAfterLastMarker(field: string): Option<int>
  {
    ParseInt(LastOf(Split(field, IdMarker)))
  }

  lemma IdMarkerLeadsOnce()
    ensures LeadsOnce(IdMarker)
  {
  }

  /** No field holds the id marker "csq=". */
  ghost predicate Unmarked(fields: seq<string>)
  {
    forall k :: 0 <= k < |fields| ==> !Contains(fields[k], IdMarker)
  }

  /** No field holds '&', so none can be cut by the " & " separator. */
  ghost predicate AmpFree(fields: seq<string>)
  {
    forall k :: 0 <= k < |fields| ==> '&' !in fields[k]
  }

  /**
   * The extraction rule read forwards: in a line whose fields before the one
   * holding `a + "csq=" + t` hold no "csq=", where no field holds '&' and `t`
   * holds no "csq=", the csq is `t` read as an integer.
   */
  lemma MarkedFieldCsq(pre: seq<string>, a: string, t: string, post: seq<string>)
    requires Unmarked(pre) && AmpFree(pre) && AmpFree(post)
    requires '&' !in a && '&' !in t && !Contains(t, IdMarker)
    ensures CsqOf(Join(pre + [a + IdMarker + t] + post, FieldSeparator)) == ParseInt(t)
  {
    var field := a + IdMarker + t;
    var fields := pre + [field] + post;
    var data := Join(fields, FieldSeparator);
    assert '&' !in field by {
      assert '&' !in IdMarker;
    }
    FieldsOfLine(pre, field, post);
    FirstMarkedField(pre, a, t, post);
    assert data != "" by {
      assert Split("", FieldSeparator) == [""];
      assert |fields[|pre|]| >= |IdMarker|;
    }
    assert CsqOf(data) == ValueAfterLastMarker(fields[|pre|]);
    assert ValueAfterLastMarker(field) == ParseInt(t) by {
      IdMarkerLeadsOnce();
      SplitLastAfter(a, IdMarker, t);
    }
  }

  /** Fields free of '&' are exactly what splitting their join gives back. */
  lemma FieldsOfLine(pre: seq<string>, field: string, post: seq<string>)
    requires forall k :: 0 <= k < |pre| ==> '&' !in pre[k]
    requires forall k :: 0 <= k < |post| ==> '&' !in post[k]
    requires '&' !in field
    ensures Split(Join(pre + [field] + post, FieldSeparator), FieldSeparator) == pre + [field] + post
  {
    var fields := pre + [field] + post;
    forall k | 0 <= k < |fields|
      ensures '&' !in fields[k]
    {
      if k < |pre| {
        assert fields[k] == pre[k];
      } else if k > |pre| {
        assert fields[k] == post[k - |pre| - 1];
      }
    }
    Evaluator.SeparatorMarked();
    SplitJoin(fields, FieldSeparator, '&', 1);
  }

  lemma FirstMarkedField(pre: seq<string>, a: string, t: string, post: seq<string>)
    requires forall k :: 0 <= k < |pre| ==> !Contains(pre[k], IdMarker)
    ensures FirstWith(pre + [a + IdMarker + t] + post, IdMarker, 0) == Some(|pre|)
  {
    var field := a + IdMarker + t;
    var fields := pre + [field] + post;
    assert field[|a|..|a| + |IdMarker|] == IdMarker;
    ContainsAt(field, IdMarker, |a|);
    forall k | 0 <= k < |pre|
      ensures !Contains(fields[k], IdMarker)
    {
      assert fields[k] == pre[k];
    }
    assert fields[|pre|] == field;
  }

  /** The dedup key: `if csq` treats 0 like "no csq". */
  function DedupKey(data: string): (r: Option<int>)
    ensures r.Some? ==> r.value != 0 && CsqOf(data) == r
    ensures r.None? ==> CsqOf(data).None? || CsqOf(data) == Some(0)
  {
    match CsqOf(data)
    case Some(c) => if c != 0 then Some(c) else None
    case None => None
  }

  lemma IdMarkerMarked()
    ensures Marks(IdMarker, 'q', 2)
  {
  }

  /** The campaign URL splits on "csq=" into the URL base and the rendered id. */
  lemma UrlSplits(id: int)
    ensures Split(Evaluator.CampaignUrl(id), IdMarker) == [Evaluator.UrlBase, IntToString(id)]
  {
    var digits := IntToString(id);
    assert 'q' !in Evaluator.Host && 'q' !in Evaluator.UserArea && 'q' !in Evaluator.DetailPage;
    assert 'q' !in Evaluator.UrlBase;
    forall i | 0 <= i < |digits|
      ensures digits[i] != 'q'
    {
      if id < 0 && i > 0 {
        assert digits[i] == digits[1..][i - 1];
      }
    }
    assert 'q' !in digits;
    IdMarkerMarked();
    SplitJoin([Evaluator.UrlBase, digits], IdMarker, 'q', 2);
    assert Join([Evaluator.UrlBase, digits], IdMarker) == Evaluator.CampaignUrl(id);
  }

  /**
   * A result line the crawler produced for campaign `id` carries `id` as its
   * dedup key, provided its free-text fields hold neither '&' nor "csq=" and
   * the id is not 0.
   */
  lemma ResultLineKey(id: int, p: Evaluator.Page)
    requires id != 0
    requires '&' !in Evaluator.ShippingType(p.sections) && '&' !in Evaluator.ShopName(p)
    requires '&' !in Evaluator.ParticipationTime(p)
    requires forall k :: 0 <= k < 6 ==> !Contains(Evaluator.LineFields(id, p)[k], IdMarker)
    ensures DedupKey(Evaluator.ResultLine(id, p)) == Some(id)
  {
    var line := Evaluator.ResultLine(id, p);
    var fields := Evaluator.LineFields(id, p);
    Evaluator.ResultLineSplits(id, p);
    NonEmptyWhenSplitMany(line, fields);
    UrlIsFirstMarked(fields);
    UrlKey(id);
    assert CsqOf(line) == ValueAfterLastMarker(fields[6]);
  }

  /** Only a non-empty string splits into more than one field. */
  lemma NonEmptyWhenSplitMany(data: string, fields: seq<string>)
    requires Split(data, FieldSeparator) == fields && |fields| > 1
    ensures data != ""
  {
  }

  /** The URL field is the first one holding "csq=" when the six before it hold none. */
  lemma UrlIsFirstMarked(fields: seq<string>)
    requires |fields| == 7 && forall k :: 0 <= k < 6 ==> !Contains(fields[k], IdMarker)
    requires exists id :: fields[6] == Evaluator.CampaignUrl(id)
    ensures FirstWith(fields, IdMarker, 0) == Some(6)
  {
    var id :| fields[6] == Evaluator.CampaignUrl(id);
    UrlSplits(id);
    assert OccursAt(fields[6], IdMarker, |Evaluator.UrlBase|);
    ContainsAt(fields[6], IdMarker, |Evaluator.UrlBase|);
  }

  /** The text after the last "csq=" of a campaign URL parses back to the campaign id. */
  lemma UrlKey(id: int)
    ensures ValueAfterLastMarker(Evaluator.CampaignUrl(id)) == Some(id)
  {
    UrlSplits(id);
    ParseIntToString(id);
  }

  /** A message without '&' and without 'q' carries no csq. */
  lemma NoKeyWithoutMarker(m: string)
    requires '&' !in m && 'q' !in m
    ensures CsqOf(m) == None && DedupKey(m) == None
  {
    if m != "" {
      MissingCharNotContained(m, FieldSeparator, '&');
      assert Split(m, FieldSeparator) == [m];
      MissingCharNotContained(m, IdMarker, 'q');
    }
  }

  // ---------------------------------------------------------------------------
  // Registry

  /** `session_results[key]`: the two append-only lists and the set of csq values seen. */
  datatype Buffers = Buffers(hidden: seq<string>, public: seq<string>, seen: set<int>)

  /** The crawl task recorded in `ongoing_tasks`, with the arguments it was started with. */
  datatype Task = Task(config: CrawlConfig, finished: bool)

  datatype Registry = Registry(
    observers: map<SessionKey, seq<Observer>>,
    tasks: map<SessionKey, Task>,
    results: map<SessionKey, Buffers>
  )

  const Initial := Registry(map[], map[], map[])

  datatype Delivery = Delivery(to: Observer, event: Event)

  function ObserversOf(reg: Registry, key: SessionKey): seq<Observer>
  {
    if key in reg.observers then reg.observers[key] else []
  }

  /** One send per attached observer, in attachment order, skipping those whose send fails. */
  function Fanout(obs: seq<Observer>, ev: Event, failing: set<Observer>): (ds: seq<Delivery>)
    ensures forall i :: 0 <= i < |ds| ==> ds[i].event == ev && ds[i].to in obs && ds[i].to !in failing
  {
    if |obs| == 0 then []
    else (if obs[0] in failing then [] else [Delivery(obs[0], ev)]) + Fanout(obs[1..], ev, failing)
  }

  /** The events one observer receives from a sequence of deliveries, in order. */
  function ReceivedBy(ds: seq<Delivery>, o: Observer): seq<Event>
  {
    if |ds| == 0 then []
    else (if ds[0].to == o then [ds[0].event] else []) + ReceivedBy(ds[1..], o)
  }

  function Repeat(ev: Event, n: nat): (r: seq<Event>)
    ensures |r| == n && forall i :: 0 <= i < n ==> r[i] == ev
  {
    if n == 0 then [] else [ev] + Repeat(ev, n - 1)
  }

  lemma {:induction false} ReceivedByAppend(a: seq<Delivery>, b: seq<Delivery>, o: Observer)
    ensures ReceivedBy(a + b, o) == ReceivedBy(a, o) + ReceivedBy(b, o)
  {
    if |a| > 0 {
      assert (a + b)[1..] == a[1..] + b;
      ReceivedByAppend(a[1..], b, o);
    } else {
      assert a + b == b;
    }
  }

  /**
   * Each observer that is not failing receives the event once per time it
   * appears in the list; a failing observer receives nothing; no other
   * observer's delivery depends on it.
   */
  lemma {:induction false} FanoutReaches(obs: seq<Observer>, ev: Event, failing: set<Observer>, o: Observer)
    ensures ReceivedBy(Fanout(obs, ev, failing), o) == if o in failing then [] else Repeat(ev, multiset(obs)[o])
  {
    if |obs| > 0 {
      FanoutStep(obs, ev, failing, o);
      CountCons(obs, o);
      FanoutReaches(obs[1..], ev, failing, o);
      if o !in failing && obs[0] == o {
        assert Repeat(ev, multiset(obs)[o]) == [ev] + Repeat(ev, multiset(obs[1..])[o]);
      }
    }
  }

  /** What the first observer of the list receives, followed by what the rest of the fan-out gives `o`. */
  lemma FanoutStep(obs: seq<Observer>, ev: Event, failing: set<Observer>, o: Observer)
    requires |obs| > 0
    ensures ReceivedBy(Fanout(obs, ev, failing), o)
            == (if obs[0] == o && o !in failing then [ev] else []) + ReceivedBy(Fanout(obs[1..], ev, failing), o)
  {
    var head := if obs[0] in failing then [] else [Delivery(obs[0], ev)];
    ReceivedByAppend(head, Fanout(obs[1..], ev, failing), o);
  }

  lemma CountCons(obs: seq<Observer>, o: Observer)
    requires |obs| > 0
    ensures multiset(obs)[o] == multiset(obs[1..])[o] + (if obs[0] == o then 1 else 0)
  {
    assert obs == [obs[0]] + obs[1..];
  }

  function HiddenEvents(lines: seq<string>): (evs: seq<Event>)
    ensures |evs| == |lines| && forall i :: 0 <= i < |lines| ==> evs[i] == Hidden(lines[i])
  {
    seq(|lines|, i requires 0 <= i < |lines| => Hidden(lines[i]))
  }

  function PublicEvents(lines: seq<string>): (evs: seq<Event>)
    ensures |evs| == |lines| && forall i :: 0 <= i < |lines| ==> evs[i] == Public(lines[i])
  {
    seq(|lines|, i requires 0 <= i < |lines| => Public(lines[i]))
  }

  /** The buffered lines replayed to a new observer: all hidden lines, then all public lines. */
  function Replay(b: Buffers): (evs: seq<Event>)
    ensures |evs| == |b.hidden| + |b.public|
    ensures forall i :: 0 <= i < |b.hidden| ==> evs[i] == Hidden(b.hidden[i])
    ensures forall j :: 0 <= j < |b.public| ==> evs[|b.hidden| + j] == Public(b.public[j])
  {
    HiddenEvents(b.hidden) + PublicEvents(b.public)
  }

  datatype Attached = Attached(reg: Registry, replay: seq<Event>, started: bool)

  /** main.py:55-79: a new connection under `req.cookie`. */
  function Attach(reg: Registry, obs: Observer, req: Request): (r: Attached)
    ensures req.cookie in r.reg.results
    ensures req.cookie in reg.results ==> r.reg.results == reg.results
    ensures req.cookie !in reg.results ==> r.reg.results == reg.results[req.cookie := Buffers([], [], {})]
    ensures r.reg.observers == reg.observers[req.cookie := ObserversOf(reg, req.cookie) + [obs]]
    ensures r.replay == Replay(r.reg.results[req.cookie])
    ensures r.started <==> req.cookie !in reg.tasks
    ensures r.started ==> r.reg.tasks == reg.tasks[req.cookie := Task(ConfigOf(req), false)]
    ensures !r.started ==> r.reg.tasks == reg.tasks
  {
    var key := req.cookie;
    var results := if key in reg.results then reg.results else reg.results[key := Buffers([], [], {})];
    var observers := reg.observers[key := ObserversOf(reg, key) + [obs]];
    var started := key !in reg.tasks;
    var tasks := if started then reg.tasks[key := Task(ConfigOf(req), false)] else reg.tasks;
    Attached(Registry(observers, tasks, results), Replay(results[key]), started)
  }

  /** `i` is the position of the first occurrence of `o` in `s`. */
  predicate FirstCopyAt(s: seq<Observer>, o: Observer, i: int)
  {
    0 <= i < |s| && s[i] == o && o !in s[..i]
  }

  /** Python's `list.remove`: drop the first occurrence. */
  function RemoveFirst(s: seq<Observer>, o: Observer): (r: seq<Observer>)
    requires o in s
    ensures |r| == |s| - 1 && multiset(r) == multiset(s) - multiset{o}
  {
    if s[0] == o then
      assert s == [s[0]] + s[1..];
      s[1..]
    else
      var rest := RemoveFirst(s[1..], o);
      assert s == [s[0]] + s[1..];
      [s[0]] + rest
  }

  /** The copy `RemoveFirst` drops is the first one: everything before it and after it stays in order. */
  lemma {:induction false} RemoveFirstAt(s: seq<Observer>, o: Observer, i: int)
    requires FirstCopyAt(s, o, i)
    ensures RemoveFirst(s, o) == s[..i] + s[i + 1..]
    decreases i
  {
    if i == 0 {
      assert s[..0] + s[1..] == s[1..];
    } else {
      var t := s[1..];
      assert FirstCopyAt(t, o, i - 1) by {
        assert s[..i] == [s[0]] + t[..i - 1];
      }
      RemoveFirstAt(t, o, i - 1);
      assert s[0] != o by {
        assert s[0] == s[..i][0];
      }
      RemoveFirstSkips(s, o);
      ConsSlices(s, i);
    }
  }

  /** Past a head that is not `o`, `list.remove` keeps the head and carries on. */
  lemma RemoveFirstSkips(s: seq<Observer>, o: Observer)
    requires o in s && s[0] != o
    ensures o in s[1..] && RemoveFirst(s, o) == [s[0]] + RemoveFirst(s[1..], o)
  {
  }

  lemma ConsSlices(s: seq<Observer>, i: int)
    requires 0 < i < |s|
    ensures [s[0]] + (s[1..][..i - 1] + s[1..][i..]) == s[..i] + s[i + 1..]
  {
    assert s[1..][..i - 1] == s[1..i];
    assert s[1..][i..] == s[i + 1..];
    assert s[..i] == [s[0]] + s[1..i];
  }

  datatype Detached = Detached(reg: Registry, cancelled: bool)

  lemma RemoveFirstEmpty(s: seq<Observer>, o: Observer)
    requires o in s
    ensures RemoveFirst(s, o) == [] <==> s == [o]
  {
  }

  /** main.py:87-94: the connection `obs` of session `key` went away. */
  function Detach(reg: Registry, key: SessionKey, obs: Observer): (r: Detached)
    ensures r.reg.results == reg.results
    ensures r.cancelled <==> key in reg.tasks && ObserversOf(reg, key) == [obs]
    ensures ObserversOf(reg, key) == [obs] ==>
              r.reg.observers == reg.observers - {key} && r.reg.tasks == reg.tasks - {key}
    ensures ObserversOf(reg, key) != [obs] ==> r.reg.tasks == reg.tasks
    ensures obs in ObserversOf(reg, key) && ObserversOf(reg, key) != [obs] ==>
              r.reg.observers == reg.observers[key := RemoveFirst(ObserversOf(reg, key), obs)]
    ensures obs !in ObserversOf(reg, key) ==> r.reg == reg
  {
    if key !in reg.observers || obs !in reg.observers[key] then Detached(reg, false)
    else
      var remaining := RemoveFirst(reg.observers[key], obs);
      RemoveFirstEmpty(reg.observers[key], obs);
      if remaining == [] then
        Detached(Registry(reg.observers - {key}, reg.tasks - {key}, reg.results), key in reg.tasks)
      else Detached(reg.(observers := reg.observers[key := remaining]), false)
  }

  // ---------------------------------------------------------------------------
  // Relaying the crawler's events

  /** The dedup key of `data` is already in the session's `all` set. */
  predicate Seen(b: Buffers, data: string)
  {
    DedupKey(data).Some? && DedupKey(data).value in b.seen
  }

  /** A buffer only grows: both lists by appending, the seen set by union. */
  predicate Extends(a: Buffers, b: Buffers)
  {
    a.hidden <= b.hidden && a.public <= b.public && a.seen <= b.seen
  }

  predicate Grows(r0: Registry, r1: Registry)
  {
    r0.results.Keys <= r1.results.Keys
    && forall k :: k in r0.results ==> k in r1.results && Extends(r0.results[k], r1.results[k])
  }

  datatype Relayed = Relayed(reg: Registry, sent: seq<Delivery>)

  /**
   * main.py:101-125: one event of the session's crawl. An event whose dedup
   * key was seen before is dropped; otherwise its key is recorded, a hidden
   * or public line is buffered, and the event is sent to every attached
   * observer.
   */
  function Relay(reg: Registry, key: SessionKey, ev: Event, failing: set<Observer>): (r: Relayed)
    requires key in reg.results
    ensures r.reg.observers == reg.observers && r.reg.tasks == reg.tasks
    ensures r.reg.results.Keys == reg.results.Keys && Grows(reg, r.reg)
    ensures forall k :: k in reg.results && k != key ==> r.reg.results[k] == reg.results[k]
    ensures Seen(reg.results[key], ev.data) ==> r.reg == reg && r.sent == []
    ensures !Seen(reg.results[key], ev.data) ==> r.sent == Fanout(ObserversOf(reg, key), ev, failing)
    ensures DedupKey(ev.data).Some? ==> Seen(r.reg.results[key], ev.data)
    ensures !Seen(reg.results[key], ev.data) ==> r.reg.results[key] == Record(reg.results[key], ev)
  {
    var b := reg.results[key];
    if Seen(b, ev.data) then Relayed(reg, [])
    else Relayed(reg.(results := reg.results[key := Record(b, ev)]), Fanout(ObserversOf(reg, key), ev, failing))
  }

  /** The buffer after `ev` is stored: a result line joins its list, and its key joins the seen set. */
  function Record(b: Buffers, ev: Event): (r: Buffers)
    ensures Extends(b, r)
    ensures DedupKey(ev.data).Some? ==> Seen(r, ev.data)
    ensures r.hidden == (if ev.Hidden? then b.hidden + [ev.data] else b.hidden)
    ensures r.public == (if ev.Public? then b.public + [ev.data] else b.public)
    ensures r.seen == (if DedupKey(ev.data).Some? then b.seen + {DedupKey(ev.data).value} else b.seen)
  {
    var csq := DedupKey(ev.data);
    Buffers(
      if ev.Hidden? then b.hidden + [ev.data] else b.hidden,
      if ev.Public? then b.public + [ev.data] else b.public,
      if csq.Some? then b.seen + {csq.value} else b.seen)
  }

  /**
   * An observer attaching after a relayed line is replayed that line at its
   * place: at the end of the hidden lines, or at the very end.
   */
  lemma RelayReplay(reg: Registry, key: SessionKey, ev: Event, failing: set<Observer>)
    requires key in reg.results && !Seen(reg.results[key], ev.data)
    ensures var old_ := Replay(reg.results[key]);
            var new_ := Replay(Relay(reg, key, ev, failing).reg.results[key]);
            var n := |reg.results[key].hidden|;
            && (ev.Hidden? ==> new_ == old_[..n] + [ev] + old_[n..])
            && (ev.Public? ==> new_ == old_ + [ev])
            && (!ev.IsResult() ==> new_ == old_)
  {
    var b := reg.results[key];
    var b' := Relay(reg, key, ev, failing).reg.results[key];
    if ev.Hidden? {
      assert b'.hidden == b.hidden + [ev.data] && b'.public == b.public;
      ReplayAppendHidden(b, b', ev.data);
    } else if ev.Public? {
      assert b'.public == b.public + [ev.data] && b'.hidden == b.hidden;
      ReplayAppendPublic(b, b', ev.data);
    } else {
      assert b'.hidden == b.hidden && b'.public == b.public;
    }
  }

  lemma ReplayAppendHidden(b: Buffers, b': Buffers, d: string)
    requires b'.hidden == b.hidden + [d] && b'.public == b.public
    ensures var n := |b.hidden|; Replay(b') == Replay(b)[..n] + [Hidden(d)] + Replay(b)[n..]
  {
    var n := |b.hidden|;
    assert Replay(b)[..n] == HiddenEvents(b.hidden) && Replay(b)[n..] == PublicEvents(b.public);
    assert HiddenEvents(b'.hidden) == HiddenEvents(b.hidden) + [Hidden(d)];
  }

  lemma ReplayAppendPublic(b: Buffers, b': Buffers, d: string)
    requires b'.public == b.public + [d] && b'.hidden == b.hidden
    ensures Replay(b') == Replay(b) + [Public(d)]
  {
    assert PublicEvents(b'.public) == PublicEvents(b.public) + [Public(d)];
  }

  /** Relaying the same campaign twice delivers it once: the second copy is dropped. */
  lemma RelayTwiceDropsSecond(reg: Registry, key: SessionKey, ev1: Event, ev2: Event, f1: set<Observer>, f2: set<Observer>)
    requires key in reg.results
    requires DedupKey(ev1.data).Some? && DedupKey(ev1.data) == DedupKey(ev2.data)
    ensures var r1 := Relay(reg, key, ev1, f1);
            Relay(r1.reg, key, ev2, f2) == Relayed(r1.reg, [])
  {
  }

  /** No two buffered lines of a session, hidden or public, carry the same dedup key, and every key was recorded. */
  predicate UniqueKeys(a: seq<string>)
  {
    forall i, j :: 0 <= i < j < |a| && DedupKey(a[i]).Some? ==> DedupKey(a[i]) != DedupKey(a[j])
  }

  predicate DisjointKeys(a: seq<string>, b: seq<string>)
  {
    forall i, j :: 0 <= i < |a| && 0 <= j < |b| && DedupKey(a[i]).Some? ==> DedupKey(a[i]) != DedupKey(b[j])
  }

  predicate Recorded(a: seq<string>, seen: set<int>)
  {
    forall i :: 0 <= i < |a| && DedupKey(a[i]).Some? ==> DedupKey(a[i]).value in seen
  }

  predicate Deduped(b: Buffers)
  {
    UniqueKeys(b.hidden) && UniqueKeys(b.public) && DisjointKeys(b.hidden, b.public)
    && Recorded(b.hidden, b.seen) && Recorded(b.public, b.seen)
  }

  lemma AppendFresh(a: seq<string>, seen: set<int>, d: string)
    requires UniqueKeys(a) && Recorded(a, seen) && !(DedupKey(d).Some? && DedupKey(d).value in seen)
    ensures UniqueKeys(a + [d])
    ensures DedupKey(d).Some? ==> Recorded(a + [d], seen + {DedupKey(d).value})
    ensures DedupKey(d).None? ==> Recorded(a + [d], seen)
  {
    var r := a + [d];
    forall i, j | 0 <= i < j < |r| && DedupKey(r[i]).Some?
      ensures DedupKey(r[i]) != DedupKey(r[j])
    {
      assert r[i] == a[i];
      if j < |a| {
        assert r[j] == a[j];
      }
    }
    var seen' := if DedupKey(d).Some? then seen + {DedupKey(d).value} else seen;
    forall i | 0 <= i < |r| && DedupKey(r[i]).Some?
      ensures DedupKey(r[i]).value in seen'
    {
      if i < |a| {
        assert r[i] == a[i];
      }
    }
  }

  lemma DisjointAppend(a: seq<string>, b: seq<string>, seen: set<int>, d: string)
    requires DisjointKeys(a, b) && Recorded(a, seen) && Recorded(b, seen)
    requires !(DedupKey(d).Some? && DedupKey(d).value in seen)
    ensures DisjointKeys(a + [d], b) && DisjointKeys(a, b + [d])
  {
  }

  /** The dedup step keeps the buffer free of duplicate campaigns. */
  lemma RelayKeepsDeduped(reg: Registry, key: SessionKey, ev: Event, failing: set<Observer>)
    requires key in reg.results && Deduped(reg.results[key])
    ensures Deduped(Relay(reg, key, ev, failing).reg.results[key])
  {
    var b := reg.results[key];
    var b' := Relay(reg, key, ev, failing).reg.results[key];
    if !Seen(b, ev.data) {
      var seen' := b'.seen;
      if ev.Hidden? {
        AppendFresh(b.hidden, b.seen, ev.data);
        DisjointAppend(b.hidden, b.public, b.seen, ev.data);
      } else if ev.Public? {
        AppendFresh(b.public, b.seen, ev.data);
        DisjointAppend(b.hidden, b.public, b.seen, ev.data);
      }
    }
  }

  /** main.py:127-131: the crawl stream ended; every attached observer is sent `done`. */
  function StreamEnd(reg: Registry, key: SessionKey, failing: set<Observer>): (r: Relayed)
    ensures r.reg.observers == reg.observers && r.reg.results == reg.results
    ensures r.reg.tasks.Keys == reg.tasks.Keys
    ensures key in reg.tasks ==> r.reg.tasks[key].finished && r.reg.tasks[key].config == reg.tasks[key].config
    ensures forall k :: k in reg.tasks && k != key ==> r.reg.tasks[k] == reg.tasks[k]
    ensures forall i :: 0 <= i < |r.sent| ==> r.sent[i].event == Done(DoneMsg) && r.sent[i].to in ObserversOf(reg, key)
  {
    Relayed(Finished(reg, key), Fanout(ObserversOf(reg, key), Done(DoneMsg), failing))
  }

  /** main.py:135-140: the stream raised; every attached observer is sent an error carrying the message. */
  function StreamFail(reg: Registry, key: SessionKey, msg: string, failing: set<Observer>): (r: Relayed)
    ensures r.reg.observers == reg.observers && r.reg.results == reg.results
    ensures r.reg.tasks.Keys == reg.tasks.Keys
    ensures key in reg.tasks ==> r.reg.tasks[key].finished && r.reg.tasks[key].config == reg.tasks[key].config
    ensures forall k :: k in reg.tasks && k != key ==> r.reg.tasks[k] == reg.tasks[k]
    ensures forall i :: 0 <= i < |r.sent| ==> r.sent[i].event == Error(msg) && r.sent[i].to in ObserversOf(reg, key)
  {
    Relayed(Finished(reg, key), Fanout(ObserversOf(reg, key), Error(msg), failing))
  }

  /** The task object stays in `ongoing_tasks` after it completes. */
  function Finished(reg: Registry, key: SessionKey): Registry
  {
    if key in reg.tasks then reg.(tasks := reg.tasks[key := reg.tasks[key].(finished := true)]) else reg
  }

  // ---------------------------------------------------------------------------
  // A whole crawl stream

  /** Relaying the crawler's events one after another. */
  function Pump(reg: Registry, key: SessionKey, evs: seq<Event>, failing: set<Observer>): (r: Relayed)
    requires key in reg.results
    ensures key in r.reg.results && r.reg.observers == reg.observers
    decreases |evs|
  {
    if |evs| == 0 then Relayed(reg, [])
    else
      var p := Pump(reg, key, evs[..|evs| - 1], failing);
      var q := Relay(p.reg, key, evs[|evs| - 1], failing);
      Relayed(q.reg, p.sent + q.sent)
  }

  /** `stream_to_all_clients` when the crawler's generator runs to its end. */
  function Stream(reg: Registry, key: SessionKey, evs: seq<Event>, failing: set<Observer>): (r: Relayed)
    requires key in reg.results
    ensures r.reg.observers == reg.observers
  {
    var p := Pump(reg, key, evs, failing);
    var e := StreamEnd(p.reg, key, failing);
    Relayed(e.reg, p.sent + e.sent)
  }

  /** An event without a dedup key, relayed last, reaches an observer attached once right after the earlier ones. */
  lemma PumpLastUnkeyed(reg: Registry, key: SessionKey, evs: seq<Event>, failing: set<Observer>, o: Observer)
    requires key in reg.results && |evs| > 0 && DedupKey(evs[|evs| - 1].data).None?
    requires o !in failing && multiset(ObserversOf(reg, key))[o] == 1
    ensures ReceivedBy(Pump(reg, key, evs, failing).sent, o)
            == ReceivedBy(Pump(reg, key, evs[..|evs| - 1], failing).sent, o) + [evs[|evs| - 1]]
  {
    var p := Pump(reg, key, evs[..|evs| - 1], failing);
    var last := evs[|evs| - 1];
    var q := Relay(p.reg, key, last, failing);
    ReceivedByAppend(p.sent, q.sent, o);
    FanoutReaches(ObserversOf(reg, key), last, failing, o);
    assert Repeat(last, 1) == [last];
  }

  /** Whatever the crawler yields, an observer attached once ends its stream with `done`. */
  lemma StreamEndsWithDone(reg: Registry, key: SessionKey, evs: seq<Event>, failing: set<Observer>, o: Observer)
    requires key in reg.results
    requires o !in failing && multiset(ObserversOf(reg, key))[o] == 1
    ensures ReceivedBy(Stream(reg, key, evs, failing).sent, o)
            == ReceivedBy(Pump(reg, key, evs, failing).sent, o) + [Done(DoneMsg)]
  {
    var p := Pump(reg, key, evs, failing);
    ReceivedByAppend(p.sent, StreamEnd(p.reg, key, failing).sent, o);
    FanoutReaches(ObserversOf(reg, key), Done(DoneMsg), failing, o);
    assert Repeat(Done(DoneMsg), 1) == [Done(DoneMsg)];
  }

  /** `stream_to_all_clients` when the crawler's generator raises after yielding `evs`. */
  function FailedStream(reg: Registry, key: SessionKey, evs: seq<Event>, msg: string, failing: set<Observer>): (r: Relayed)
    requires key in reg.results
    ensures r.reg.observers == reg.observers
  {
    var p := Pump(reg, key, evs, failing);
    var e := StreamFail(p.reg, key, msg, failing);
    Relayed(e.reg, p.sent + e.sent)
  }

  /** A failure reaches each healthy observer once per attachment, and no failing one. */
  lemma StreamFailReaches(reg: Registry, key: SessionKey, msg: string, failing: set<Observer>, o: Observer)
    ensures ReceivedBy(StreamFail(reg, key, msg, failing).sent, o)
            == if o in failing then [] else Repeat(Error(msg), multiset(ObserversOf(reg, key))[o])
  {
    FanoutReaches(ObserversOf(reg, key), Error(msg), failing, o);
  }

  /** When the crawler raises, an observer attached once ends its stream with the error and sees no `done`. */
  lemma FailedStreamEndsWithError(reg: Registry, key: SessionKey, evs: seq<Event>, msg: string, failing: set<Observer>, o: Observer)
    requires key in reg.results
    requires o !in failing && multiset(ObserversOf(reg, key))[o] == 1
    ensures ReceivedBy(FailedStream(reg, key, evs, msg, failing).sent, o)
            == ReceivedBy(Pump(reg, key, evs, failing).sent, o) + [Error(msg)]
  {
    var p := Pump(reg, key, evs, failing);
    ReceivedByAppend(p.sent, StreamFail(p.reg, key, msg, failing).sent, o);
    StreamFailReaches(p.reg, key, msg, failing, o);
    assert Repeat(Error(msg), 1) == [Error(msg)];
  }

  lemma DoneUnkeyed()
    ensures DedupKey(DoneMsg).None?
  {
    NoKeyWithoutMarker(DoneMsg);
  }

  lemma DirectoryErrorUnkeyed()
    ensures DedupKey(DirectoryErrorMsg).None?
  {
    NoKeyWithoutMarker(DirectoryErrorMsg);
  }

  lemma RangeErrorUnkeyed()
    ensures DedupKey(RangeErrorMsg).None?
  {
    NoKeyWithoutMarker(RangeErrorMsg);
  }

  /** A stream of one event without a dedup key reaches an observer attached once as that event, then `done`. */
  lemma SingleUnkeyedThenDone(reg: Registry, key: SessionKey, e: Event, failing: set<Observer>, o: Observer)
    requires key in reg.results && DedupKey(e.data).None?
    requires o !in failing && multiset(ObserversOf(reg, key))[o] == 1
    ensures ReceivedBy(Stream(reg, key, [e], failing).sent, o) == [e, Done(DoneMsg)]
  {
    StreamEndsWithDone(reg, key, [e], failing, o);
    PumpLastUnkeyed(reg, key, [e], failing, o);
    assert [e][..0] == [];
  }

  /** A stream whose last event is the crawler's own `done` ends, for an observer attached once, with two `done`s. */
  lemma DoneThenDone(reg: Registry, key: SessionKey, evs: seq<Event>, failing: set<Observer>, o: Observer)
    requires key in reg.results && |evs| > 0 && evs[|evs| - 1] == Done(DoneMsg)
    requires o !in failing && multiset(ObserversOf(reg, key))[o] == 1
    ensures var got := ReceivedBy(Stream(reg, key, evs, failing).sent, o);
            |got| >= 2 && got[|got| - 2..] == [Done(DoneMsg), Done(DoneMsg)]
  {
    var before := ReceivedBy(Pump(reg, key, evs[..|evs| - 1], failing).sent, o);
    var pumped := ReceivedBy(Pump(reg, key, evs, failing).sent, o);
    assert pumped == before + [Done(DoneMsg)] by {
      DoneUnkeyed();
      PumpLastUnkeyed(reg, key, evs, failing, o);
    }
    StreamEndsWithDone(reg, key, evs, failing, o);
    EndsWithPair(pumped, Done(DoneMsg));
  }

  lemma EndsWithPair<T>(s: seq<T>, x: T)
    requires |s| > 0 && s[|s| - 1] == x
    ensures (s + [x])[|s| - 1..] == [x, x]
  {
  }

  /**
   * A crawl that fails before it starts (no directory, or a manual range
   * without both bounds) still ends in `done`: the observer receives the
   * error and then `done`.
   */
  lemma EarlyErrorThenDone(cfg: CrawlConfig, directory: seq<Directory.Attempt>, pages: int -> Evaluator.Fetch,
                           reg: Registry, key: SessionKey, failing: set<Observer>, o: Observer)
    requires |directory| == Directory.MaxAttempts
    requires Directory.FirstNonEmpty(directory) == {} || MissingBound(cfg)
    requires key in reg.results && o !in failing && multiset(ObserversOf(reg, key))[o] == 1
    ensures var msg := if Directory.FirstNonEmpty(directory) == {} then DirectoryErrorMsg else RangeErrorMsg;
            ReceivedBy(Stream(reg, key, RunCrawler(cfg, directory, pages), failing).sent, o)
            == [Error(msg), Done(DoneMsg)]
  {
    var msg := if Directory.FirstNonEmpty(directory) == {} then DirectoryErrorMsg else RangeErrorMsg;
    assert RunCrawler(cfg, directory, pages) == [Error(msg)];
    DirectoryErrorUnkeyed();
    RangeErrorUnkeyed();
    SingleUnkeyedThenDone(reg, key, Error(msg), failing, o);
  }

  /** A crawl that runs to completion makes every observer attached once receive `done` twice at the end. */
  lemma CompletedRunDoneTwice(cfg: CrawlConfig, directory: seq<Directory.Attempt>, pages: int -> Evaluator.Fetch,
                              reg: Registry, key: SessionKey, failing: set<Observer>, o: Observer)
    requires |directory| == Directory.MaxAttempts
    requires Directory.FirstNonEmpty(directory) != {} && !MissingBound(cfg)
    requires key in reg.results && o !in failing && multiset(ObserversOf(reg, key))[o] == 1
    ensures var evs := RunCrawler(cfg, directory, pages);
            var got := ReceivedBy(Stream(reg, key, evs, failing).sent, o);
            |got| >= 2 && got[|got| - 2..] == [Done(DoneMsg), Done(DoneMsg)]
  {
    DoneThenDone(reg, key, RunCrawler(cfg, directory, pages), failing, o);
  }

  // ---------------------------------------------------------------------------
  // The results query

  datatype Answer = NotFound | Found(hidden: seq<string>, public: seq<string>)

  /** main.py:143-148: the buffered lines of a session; `not_found` when the session never connected. */
  function Query(reg: Registry, key: SessionKey): (a: Answer)
    ensures a.NotFound? <==> key !in reg.results
    ensures a.Found? ==> Replay(Buffers(a.hidden, a.public, {})) == Replay(reg.results[key])
  {
    if key !in reg.results then NotFound
    else Found(reg.results[key].hidden, reg.results[key].public)
  }

  /** A query and a newly attached observer's replay show the same lines in the same order. */
  lemma QueryMatchesReplay(reg: Registry, obs: Observer, req: Request)
    requires req.cookie in reg.results
    ensures var a := Query(reg, req.cookie);
            a.Found? && Attach(reg, obs, req).replay == Replay(Buffers(a.hidden, a.public, {}))
  {
  }

  // ---------------------------------------------------------------------------
  // The server as a transition system

  datatype Step =
    | Connect(obs: Observer, req: Request)
    | Disconnect(key: SessionKey, obs: Observer)
    | Produce(key: SessionKey, ev: Event, failing: set<Observer>)
    | Finish(key: SessionKey, failing: set<Observer>)
    | Crash(key: SessionKey, msg: string, failing: set<Observer>)

  /** A session's crawl task can still produce output: it is recorded, not finished, and has a buffer. */
  predicate Streaming(reg: Registry, key: SessionKey)
  {
    key in reg.tasks && !reg.tasks[key].finished && key in reg.results
  }

  function Next(reg: Registry, step: Step): Registry
  {
    match step
    case Connect(o, req) => Attach(reg, o, req).reg
    case Disconnect(k, o) => Detach(reg, k, o).reg
    case Produce(k, ev, f) => if Streaming(reg, k) then Relay(reg, k, ev, f).reg else reg
    case Finish(k, f) => if Streaming(reg, k) then StreamEnd(reg, k, f).reg else reg
    case Crash(k, m, f) => if Streaming(reg, k) then StreamFail(reg, k, m, f).reg else reg
  }

  function Run(reg: Registry, steps: seq<Step>): Registry
    decreases |steps|
  {
    if |steps| == 0 then reg else Next(Run(reg, steps[..|steps| - 1]), steps[|steps| - 1])
  }

  /**
   * What the three maps keep between steps: a session has a recorded task
   * exactly when it has observers, every observer list is non-empty, every
   * session with observers has a buffer, and no buffer holds a campaign twice.
   */
  predicate Inv(reg: Registry)
  {
    && reg.tasks.Keys == reg.observers.Keys
    && reg.observers.Keys <= reg.results.Keys
    && (forall k :: k in reg.observers ==> reg.observers[k] != [])
    && (forall k :: k in reg.results ==> Deduped(reg.results[k]))
  }

  lemma AttachKeepsInv(reg: Registry, o: Observer, req: Request)
    requires Inv(reg)
    ensures Inv(Attach(reg, o, req).reg)
  {
    AttachKeys(reg, o, req);
    AttachKeepsDeduped(reg, o, req);
  }

  lemma AttachKeys(reg: Registry, o: Observer, req: Request)
    requires reg.tasks.Keys == reg.observers.Keys
    ensures Attach(reg, o, req).reg.tasks.Keys == reg.tasks.Keys + {req.cookie}
    ensures Attach(reg, o, req).reg.observers.Keys == reg.observers.Keys + {req.cookie}
  {
  }

  lemma AttachKeepsDeduped(reg: Registry, o: Observer, req: Request)
    requires forall k :: k in reg.results ==> Deduped(reg.results[k])
    ensures forall k :: k in Attach(reg, o, req).reg.results ==> Deduped(Attach(reg, o, req).reg.results[k])
  {
    assert Deduped(Buffers([], [], {}));
  }

  lemma DetachKeepsInv(reg: Registry, key: SessionKey, o: Observer)
    requires Inv(reg)
    ensures Inv(Detach(reg, key, o).reg)
  {
    if key in reg.observers && o in reg.observers[key] {
      var r := Detach(reg, key, o).reg;
      if |reg.observers[key]| == 1 {
        assert r.tasks.Keys == reg.tasks.Keys - {key};
        assert r.observers.Keys == reg.observers.Keys - {key};
      } else {
        assert r.observers.Keys == reg.observers.Keys;
      }
    }
  }

  lemma RelayKeepsInv(reg: Registry, key: SessionKey, ev: Event, f: set<Observer>)
    requires Inv(reg) && key in reg.results
    ensures Inv(Relay(reg, key, ev, f).reg)
  {
    RelayKeepsDeduped(reg, key, ev, f);
  }

  lemma FinishedKeepsInv(reg: Registry, key: SessionKey)
    requires Inv(reg)
    ensures Inv(Finished(reg, key))
  {
    assert Finished(reg, key).tasks.Keys == reg.tasks.Keys;
  }

  lemma NextKeepsInv(reg: Registry, step: Step)
    requires Inv(reg)
    ensures Inv(Next(reg, step))
  {
    match step
    case Connect(o, req) => AttachKeepsInv(reg, o, req);
    case Disconnect(k, o) => DetachKeepsInv(reg, k, o);
    case Produce(k, ev, f) =>
      if Streaming(reg, k) {
        RelayKeepsInv(reg, k, ev, f);
      }
    case Finish(k, f) => FinishedKeepsInv(reg, k);
    case Crash(k, m, f) => FinishedKeepsInv(reg, k);
  }

  lemma {:induction false} RunKeepsInv(steps: seq<Step>)
    ensures Inv(Run(Initial, steps))
  {
    if |steps| > 0 {
      RunKeepsInv(steps[..|steps| - 1]);
      NextKeepsInv(Run(Initial, steps[..|steps| - 1]), steps[|steps| - 1]);
    }
  }

  /** No step loses a buffered line or a recorded csq. */
  lemma NextGrows(reg: Registry, step: Step)
    ensures Grows(reg, Next(reg, step))
  {
  }

  lemma {:induction false} RunGrows(reg: Registry, steps: seq<Step>)
    ensures Grows(reg, Run(reg, steps))
  {
    if |steps| > 0 {
      var mid := Run(reg, steps[..|steps| - 1]);
      RunGrows(reg, steps[..|steps| - 1]);
      NextGrows(mid, steps[|steps| - 1]);
    }
  }

  predicate Connected(steps: seq<Step>, key: SessionKey)
  {
    exists i :: 0 <= i < |steps| && steps[i].Connect? && steps[i].req.cookie == key
  }

  /** The query answers `not_found` exactly for sessions that never connected: nothing else creates a buffer, nothing removes one. */
  lemma {:induction false} QueryNotFoundIffNeverConnected(steps: seq<Step>, key: SessionKey)
    ensures Query(Run(Initial, steps), key).NotFound? <==> !Connected(steps, key)
  {
    if |steps| > 0 {
      var init := steps[..|steps| - 1];
      var last := steps[|steps| - 1];
      QueryNotFoundIffNeverConnected(init, key);
      NextResultKeys(Run(Initial, init), last);
      if Connected(init, key) {
        var i :| 0 <= i < |init| && init[i].Connect? && init[i].req.cookie == key;
        assert steps[i] == init[i];
      }
      if Connected(steps, key) && !(last.Connect? && last.req.cookie == key) {
        var i :| 0 <= i < |steps| && steps[i].Connect? && steps[i].req.cookie == key;
        assert init[i] == steps[i];
      }
    }
  }

  /** Only a connection creates a buffer, and nothing removes one. */
  lemma NextResultKeys(reg: Registry, step: Step)
    ensures Next(reg, step).results.Keys == reg.results.Keys + (if step.Connect? then {step.req.cookie} else {})
  {
  }

  /** Every answer to the query lists each campaign at most once. */
  lemma QueryDeduped(steps: seq<Step>, key: SessionKey)
    requires Query(Run(Initial, steps), key).Found?
    ensures var a := Query(Run(Initial, steps), key);
            UniqueKeys(a.hidden) && UniqueKeys(a.public) && DisjointKeys(a.hidden, a.public)
  {
    var reg := Run(Initial, steps);
    RunKeepsInv(steps);
    assert key in reg.results;
    assert Deduped(reg.results[key]);
  }

  /** With the invariant, a connection starts a crawl exactly when nobody else is watching the session. */
  lemma AttachStartsIffAlone(reg: Registry, obs: Observer, req: Request)
    requires Inv(reg)
    ensures Attach(reg, obs, req).started <==> ObserversOf(reg, req.cookie) == []
  {
  }

  /** With the invariant, a disconnection cancels the crawl exactly when it was the session's last observer. */
  lemma DetachCancelsIffLast(reg: Registry, key: SessionKey, obs: Observer)
    requires Inv(reg)
    ensures Detach(reg, key, obs).cancelled <==> ObserversOf(reg, key) == [obs]
  {
  }

  /** A finished crawl is not restarted by a new connection while the session still has observers. */
  lemma FinishedNotRestarted(reg: Registry, key: SessionKey, failing: set<Observer>, obs: Observer, req: Request)
    requires Inv(reg) && key in reg.observers && req.cookie == key
    ensures !Attach(StreamEnd(reg, key, failing).reg, obs, req).started
  {
  }
}
