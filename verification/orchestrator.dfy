/**
 * The crawl producer (backend/crawler.py, `run_crawler_streaming`): resolve
 * the directory, choose the id range, walk it in ascending order skipping the
 * excluded ids, and emit one event per accepted campaign followed by one
 * `done`. Each fetch is an oracle `pages(id)`; the directory fetches are the
 * three attempt outcomes.
 */
module Orchestrator {
  import opened Options
  import Directory
  import opened Evaluator

  datatype Event = Hidden(data: string) | Public(data: string) | Error(data: string) | Done(data: string)
  {
    predicate IsResult() { Hidden? || Public? }
  }

  const DirectoryErrorMsg := "공개 캠페인 정보를 가져오지 못했습니다."
  const RangeErrorMsg := "수동 범위 사용 시 start_id, end_id는 필수입니다."
  const DoneMsg := "크롤링 완료"

  /** The arguments of one crawl run. */
  datatype CrawlConfig = CrawlConfig(
    cookie: string,
    selectedDays: seq<string>,
    excludeKeywords: seq<string>,
    useFullRange: bool,
    startId: Option<int>,
    endId: Option<int>,
    excludeIds: set<int>
  )

  lemma HasMember(s: set<int>)
    requires s != {}
    ensures exists x :: x in s
  {
    if forall x :: x !in s {
    }
  }

  /** `m` is the smallest element of `s`. */
  predicate IsMin(m: int, s: set<int>)
  {
    m in s && forall y :: y in s ==> m <= y
  }

  /** `m` is the largest element of `s`. */
  predicate IsMax(m: int, s: set<int>)
  {
    m in s && forall y :: y in s ==> y <= m
  }

  lemma MinExists(s: set<int>)
    requires s != {}
    ensures exists m :: IsMin(m, s)
    decreases |s|
  {
    HasMember(s);
    var x :| x in s;
    var rest := s - {x};
    if rest == {} {
      assert s == {x};
      assert IsMin(x, s);
    } else {
      MinExists(rest);
      var m :| IsMin(m, rest);
      var least := if x < m then x else m;
      forall y | y in s
        ensures least <= y
      {
        if y != x {
          assert y in rest;
        }
      }
      assert IsMin(least, s);
    }
  }

  lemma MaxExists(s: set<int>)
    requires s != {}
    ensures exists m :: IsMax(m, s)
    decreases |s|
  {
    HasMember(s);
    var x :| x in s;
    var rest := s - {x};
    if rest == {} {
      assert s == {x};
      assert IsMax(x, s);
    } else {
      MaxExists(rest);
      var m :| IsMax(m, rest);
      var greatest := if x > m then x else m;
      forall y | y in s
        ensures y <= greatest
      {
        if y != x {
          assert y in rest;
        }
      }
      assert IsMax(greatest, s);
    }
  }

  /** Python's `min` of a non-empty set. */
  function MinOf(s: set<int>): (m: int)
    requires s != {}
    ensures m in s && forall y :: y in s ==> m <= y
  {
    MinExists(s);
    var m :| IsMin(m, s);
    m
  }

  /** Python's `max` of a non-empty set. */
  function MaxOf(s: set<int>): (m: int)
    requires s != {}
    ensures m in s && forall y :: y in s ==> y <= m
  {
    MaxExists(s);
    var m :| IsMax(m, s);
    m
  }

  /** An event together with the campaign id it was produced for. */
  datatype Tagged = Tagged(id: int, event: Event)

  /** `ev` is the event the crawler yields for decision `d`. */
  predicate Reports(ev: Event, d: Decision)
  {
    (d.IncludedHidden? && ev == Hidden(d.line)) || (d.IncludedPublic? && ev == Public(d.line))
  }

  /** The events for one id: none when it is skipped or excluded, one otherwise. */
  function Visit(id: int, skip: set<int>, decide: int -> Decision): (ts: seq<Tagged>)
    ensures |ts| <= 1
    ensures |ts| == 1 <==> id !in skip && decide(id).Included()
    ensures |ts| == 1 ==> ts[0].id == id && Reports(ts[0].event, decide(id))
  {
    if id in skip then []
    else match decide(id)
      case Excluded(_) => []
      case IncludedHidden(line) => [Tagged(id, Hidden(line))]
      case IncludedPublic(line) => [Tagged(id, Public(line))]
  }

  /** Every entry of `ts` reports an unskipped id of `lo..hi`, in increasing id order. */
  predicate WalkSound(lo: int, hi: int, skip: set<int>, decide: int -> Decision, ts: seq<Tagged>)
  {
    && (forall i :: 0 <= i < |ts| ==> lo <= ts[i].id <= hi && ts[i].id !in skip)
    && (forall i :: 0 <= i < |ts| ==> Reports(ts[i].event, decide(ts[i].id)))
    && (forall i, j :: 0 <= i < j < |ts| ==> ts[i].id < ts[j].id)
  }

  /** Every unskipped, included id of `lo..hi` has an entry in `ts`. */
  predicate WalkCovers(lo: int, hi: int, skip: set<int>, decide: int -> Decision, ts: seq<Tagged>)
  {
    forall id :: lo <= id <= hi && id !in skip && decide(id).Included() ==>
      exists i :: 0 <= i < |ts| && ts[i].id == id
  }

  /** The loop `for cid in range(lo, hi + 1)`, skipping the excluded ids. */
  function Walk(lo: int, hi: int, skip: set<int>, decide: int -> Decision): (ts: seq<Tagged>)
    ensures forall i :: 0 <= i < |ts| ==> lo <= ts[i].id <= hi && ts[i].id !in skip
    ensures forall i :: 0 <= i < |ts| ==> Reports(ts[i].event, decide(ts[i].id))
    ensures forall i, j :: 0 <= i < j < |ts| ==> ts[i].id < ts[j].id
    ensures forall id :: lo <= id <= hi && id !in skip && decide(id).Included() ==>
              exists i :: 0 <= i < |ts| && ts[i].id == id
    decreases hi - lo + 1
  {
    if lo > hi then []
    else
      var head := Visit(lo, skip, decide);
      var tail := Walk(lo + 1, hi, skip, decide);
      WalkCons(lo, hi, skip, decide, head, tail);
      head + tail
  }

  /** Visiting `lo` and then walking `lo + 1..hi` walks `lo..hi`. */
  lemma WalkCons(lo: int, hi: int, skip: set<int>, decide: int -> Decision, head: seq<Tagged>, tail: seq<Tagged>)
    requires lo <= hi && head == Visit(lo, skip, decide)
    requires WalkSound(lo + 1, hi, skip, decide, tail) && WalkCovers(lo + 1, hi, skip, decide, tail)
    ensures WalkSound(lo, hi, skip, decide, head + tail) && WalkCovers(lo, hi, skip, decide, head + tail)
  {
    WalkConsSound(lo, hi, skip, decide, head, tail);
    WalkConsCovers(lo, hi, skip, decide, head, tail);
  }

  lemma WalkConsSound(lo: int, hi: int, skip: set<int>, decide: int -> Decision, head: seq<Tagged>, tail: seq<Tagged>)
    requires lo <= hi && head == Visit(lo, skip, decide)
    requires WalkSound(lo + 1, hi, skip, decide, tail)
    ensures WalkSound(lo, hi, skip, decide, head + tail)
  {
    if |head| == 0 {
      assert head + tail == tail;
    }
  }

  lemma WalkConsCovers(lo: int, hi: int, skip: set<int>, decide: int -> Decision, head: seq<Tagged>, tail: seq<Tagged>)
    requires lo <= hi && head == Visit(lo, skip, decide)
    requires WalkCovers(lo + 1, hi, skip, decide, tail)
    ensures WalkCovers(lo, hi, skip, decide, head + tail)
  {
    var ts := head + tail;
    forall id | lo <= id <= hi && id !in skip && decide(id).Included()
      ensures exists i :: 0 <= i < |ts| && ts[i].id == id
    {
      if id == lo {
        assert ts[0].id == id;
      } else {
        var k :| 0 <= k < |tail| && tail[k].id == id;
        assert ts[|head| + k].id == id;
      }
    }
  }

  function EventsOf(ts: seq<Tagged>): (evs: seq<Event>)
    ensures |evs| == |ts| && forall i :: 0 <= i < |ts| ==> evs[i] == ts[i].event
  {
    seq(|ts|, i requires 0 <= i < |ts| => ts[i].event)
  }

  /** The decision for one id in this run: fetch its page and evaluate it. */
  function Decider(cfg: CrawlConfig, publicIds: set<int>, pages: int -> Fetch): int -> Decision
  {
    id => Evaluate(id, pages(id), publicIds, cfg.selectedDays, cfg.excludeKeywords)
  }

  /** Manual mode without both bounds. */
  predicate MissingBound(cfg: CrawlConfig)
  {
    !cfg.useFullRange && (cfg.startId.None? || cfg.endId.None?)
  }

  /** The inclusive id range of a run that got past both early errors. */
  function Bounds(cfg: CrawlConfig, publicIds: set<int>): (b: (int, int))
    requires publicIds != {} && !MissingBound(cfg)
    ensures cfg.useFullRange ==>
              b.0 in publicIds && b.1 in publicIds && forall x :: x in publicIds ==> b.0 <= x <= b.1
    ensures !cfg.useFullRange ==> b == (cfg.startId.value, cfg.endId.value)
  {
    if cfg.useFullRange then (MinOf(publicIds), MaxOf(publicIds))
    else (cfg.startId.value, cfg.endId.value)
  }

  /** Everything `run_crawler_streaming` yields, in order. */
  function RunCrawler(cfg: CrawlConfig, directory: seq<Directory.Attempt>, pages: int -> Fetch): (evs: seq<Event>)
    requires |directory| == Directory.MaxAttempts
    ensures |evs| >= 1
    ensures evs[|evs| - 1].Done? || evs[|evs| - 1].Error?
    ensures forall i :: 0 <= i < |evs| - 1 ==> evs[i].IsResult()
    ensures evs[|evs| - 1].Error? ==> |evs| == 1
    ensures Directory.FirstNonEmpty(directory) == {} ==> evs == [Error(DirectoryErrorMsg)]
    ensures Directory.FirstNonEmpty(directory) != {} && MissingBound(cfg) ==> evs == [Error(RangeErrorMsg)]
    ensures Directory.FirstNonEmpty(directory) != {} && !MissingBound(cfg) ==> evs[|evs| - 1] == Done(DoneMsg)
  {
    var publicIds := Directory.FirstNonEmpty(directory);
    if publicIds == {} then [Error(DirectoryErrorMsg)]
    else if MissingBound(cfg) then [Error(RangeErrorMsg)]
    else
      var (lo, hi) := Bounds(cfg, publicIds);
      EventsOf(Walk(lo, hi, cfg.excludeIds, Decider(cfg, publicIds, pages))) + [Done(DoneMsg)]
  }

  /**
   * A run that reaches its `done` reports, in strictly increasing id order,
   * exactly the ids of the range that are not skipped and that the evaluator
   * accepts, each once, with the event its decision calls for.
   */
  lemma RunCrawlerWalksRange(cfg: CrawlConfig, directory: seq<Directory.Attempt>, pages: int -> Fetch)
    returns (lo: int, hi: int, ts: seq<Tagged>)
    requires |directory| == Directory.MaxAttempts
    requires RunCrawler(cfg, directory, pages)[|RunCrawler(cfg, directory, pages)| - 1].Done?
    ensures RunCrawler(cfg, directory, pages) == EventsOf(ts) + [Done(DoneMsg)]
    ensures cfg.useFullRange ==>
              lo == MinOf(Directory.FirstNonEmpty(directory)) && hi == MaxOf(Directory.FirstNonEmpty(directory))
    ensures !cfg.useFullRange ==> Some(lo) == cfg.startId && Some(hi) == cfg.endId
    ensures forall i, j :: 0 <= i < j < |ts| ==> ts[i].id < ts[j].id
    ensures forall i :: 0 <= i < |ts| ==> lo <= ts[i].id <= hi && ts[i].id !in cfg.excludeIds
    ensures forall i :: 0 <= i < |ts| ==>
              Reports(ts[i].event, Evaluate(ts[i].id, pages(ts[i].id), Directory.FirstNonEmpty(directory),
                                            cfg.selectedDays, cfg.excludeKeywords))
    ensures forall id :: lo <= id <= hi && id !in cfg.excludeIds
              && Evaluate(id, pages(id), Directory.FirstNonEmpty(directory), cfg.selectedDays, cfg.excludeKeywords).Included()
              ==> exists i :: 0 <= i < |ts| && ts[i].id == id
  {
    var publicIds := Directory.FirstNonEmpty(directory);
    var decide := Decider(cfg, publicIds, pages);
    var b := Bounds(cfg, publicIds);
    lo, hi := b.0, b.1;
    ts := Walk(lo, hi, cfg.excludeIds, decide);
    forall i | 0 <= i < |ts|
      ensures Reports(ts[i].event, Evaluate(ts[i].id, pages(ts[i].id), publicIds, cfg.selectedDays, cfg.excludeKeywords))
    {
      assert decide(ts[i].id) == Evaluate(ts[i].id, pages(ts[i].id), publicIds, cfg.selectedDays, cfg.excludeKeywords);
    }
    forall id | lo <= id <= hi && id !in cfg.excludeIds
              && Evaluate(id, pages(id), publicIds, cfg.selectedDays, cfg.excludeKeywords).Included()
      ensures exists i :: 0 <= i < |ts| && ts[i].id == id
    {
      assert decide(id) == Evaluate(id, pages(id), publicIds, cfg.selectedDays, cfg.excludeKeywords);
    }
  }
}
