/**
 * Directory resolution: the set of campaign ids the listing index page
 * advertises, read from the `data-csq` attributes embedded in its script
 * blocks, with at most three fetch attempts (backend/crawler.py,
 * `get_public_campaigns`).
 */
module Directory {
  import opened Options
  import opened Strings

  const MaxAttempts: nat := 3

  /** One fetch of the index page: a transport failure, or the texts of its script blocks. */
  datatype Attempt = TransportFailure | Fetched(scripts: seq<string>)

  const AttrName := "data-csq="

  predicate IsQuote(c: char) { c == '"' || c == '\'' }

  /** The digits of a match whose attribute name ends at `j` start at `k`: after the quote, if one follows. */
  predicate ValueStartsAt(script: string, j: int, k: int)
  {
    if 0 <= j < |script| && IsQuote(script[j]) then k == j + 1 else k == j
  }

  /**
   * The id the pattern `data-csq=["']?(\d+)` captures when a match starts at
   * position `i`: the attribute name, an optional quote, then the maximal run
   * of digits, which must be non-empty.
   */
  function AttrValueAt(script: string, i: nat): (r: Option<nat>)
    ensures r.Some? <==> OccursAt(script, AttrName, i)
                         && exists k :: ValueStartsAt(script, i + |AttrName|, k) && k < |script| && IsDigit(script[k])
    ensures r.Some? ==> exists k :: ValueStartsAt(script, i + |AttrName|, k) && k <= |script|
                                    && r.value == DigitsToNat(DigitRun(script, k))
  {
    if !OccursAt(script, AttrName, i) then None
    else
      var j := i + |AttrName|;
      var k := if j < |script| && IsQuote(script[j]) then j + 1 else j;
      assert ValueStartsAt(script, j, k);
      var run := DigitRun(script, k);
      if |run| > 0 then Some(DigitsToNat(run)) else None
  }

  /** An id written into a quoted `data-csq` attribute, followed by a non-digit, is found in the script. */
  lemma RenderedIdFound(pre: string, n: nat, post: string)
    requires |post| == 0 || !IsDigit(post[0])
    ensures n in ScriptIds(pre + AttrName + "\"" + NatToString(n) + post)
  {
    var d := NatToString(n);
    var script := pre + AttrName + "\"" + d + post;
    var i := |pre|;
    var j := i + |AttrName|;
    assert script[i..j] == AttrName;
    assert script[j] == '"';
    assert script[j + 1..j + 1 + |d|] == d;
    if |post| > 0 {
      assert script[j + 1 + |d|] == post[0];
    }
    DigitRunIs(script, j + 1, d);
    assert AttrValueAt(script, i) == Some(n);
  }

  /** Every id matched in one script block (Python's `re.findall` then `int`). */
  function ScriptIds(script: string): set<nat>
  {
    set i: nat | i < |script| && AttrValueAt(script, i).Some? :: AttrValueAt(script, i).value
  }

  /** The union of the ids of all script blocks of one page. */
  function PageIds(scripts: seq<string>): (ids: set<nat>)
    ensures forall k :: 0 <= k < |scripts| ==> ScriptIds(scripts[k]) <= ids
    ensures forall x :: x in ids ==> exists k :: 0 <= k < |scripts| && x in ScriptIds(scripts[k])
  {
    if |scripts| == 0 then {}
    else ScriptIds(scripts[0]) + PageIds(scripts[1..])
  }

  /** What one attempt contributes: nothing on a transport failure. */
  function Yield(a: Attempt): set<nat>
  {
    match a
    case TransportFailure => {}
    case Fetched(scripts) => PageIds(scripts)
  }

  function CountFailures(outcomes: seq<Attempt>): nat
  {
    if |outcomes| == 0 then 0
    else CountFailures(outcomes[..|outcomes| - 1])
         + (if outcomes[|outcomes| - 1].TransportFailure? then 1 else 0)
  }

  /** The ids of the first attempt that yields any, or none if no attempt does. */
  function FirstNonEmpty(outcomes: seq<Attempt>): set<nat>
  {
    if |outcomes| == 0 then {}
    else if Yield(outcomes[0]) != {} then Yield(outcomes[0])
    else FirstNonEmpty(outcomes[1..])
  }

  /**
   * The retry loop of `get_public_campaigns`, fed the outcome each attempt
   * would have. Returns the ids, the number of attempts made, and how many
   * three-second back-off sleeps were taken.
   */
  method Resolve(outcomes: seq<Attempt>) returns (ids: set<nat>, attempts: nat, sleeps: nat)
    requires |outcomes| == MaxAttempts
    ensures 1 <= attempts <= MaxAttempts
    ensures forall k :: 0 <= k < attempts - 1 ==> Yield(outcomes[k]) == {}
    ensures ids != {} ==> ids == Yield(outcomes[attempts - 1])
    ensures ids == {} ==> attempts == MaxAttempts && Yield(outcomes[attempts - 1]) == {}
    ensures ids == FirstNonEmpty(outcomes)
    ensures sleeps == CountFailures(outcomes[..attempts])
  {
    var acc: set<nat> := {};
    sleeps := 0;
    attempts := 0;
    while attempts < MaxAttempts
      invariant attempts <= MaxAttempts
      invariant acc == {}
      invariant NoneYet(outcomes, attempts)
      invariant FirstNonEmpty(outcomes) == FirstNonEmpty(outcomes[attempts..])
      invariant sleeps == CountFailures(outcomes[..attempts])
    {
      CountStep(outcomes, attempts);
      if outcomes[attempts].TransportFailure? {
        sleeps := sleeps + 1;
      } else {
        acc := acc + PageIds(outcomes[attempts].scripts);
        if acc != {} {
          FoundHere(outcomes, attempts);
          ids := acc;
          attempts := attempts + 1;
          return;
        }
      }
      SkipEmpty(outcomes, attempts);
      attempts := attempts + 1;
    }
    ids := {};
  }

  /** None of the first `n` attempts yielded an id. */
  predicate NoneYet(outcomes: seq<Attempt>, n: nat)
    requires n <= |outcomes|
  {
    forall k :: 0 <= k < n ==> Yield(outcomes[k]) == {}
  }

  lemma CountStep(outcomes: seq<Attempt>, a: nat)
    requires a < |outcomes|
    ensures CountFailures(outcomes[..a + 1])
            == CountFailures(outcomes[..a]) + (if outcomes[a].TransportFailure? then 1 else 0)
  {
    assert outcomes[..a + 1][..a] == outcomes[..a];
  }

  /** An attempt that yields nothing hands over to the next one. */
  lemma SkipEmpty(outcomes: seq<Attempt>, a: nat)
    requires a < |outcomes| && Yield(outcomes[a]) == {}
    ensures FirstNonEmpty(outcomes[a..]) == FirstNonEmpty(outcomes[a + 1..])
  {
    assert outcomes[a..][1..] == outcomes[a + 1..];
  }

  lemma FoundHere(outcomes: seq<Attempt>, a: nat)
    requires a < |outcomes| && Yield(outcomes[a]) != {}
    ensures FirstNonEmpty(outcomes[a..]) == Yield(outcomes[a])
  {
  }
}
