/**
 * The small text scanners the crawler, the session manager and the two
 * browser pages rely on: substring search, Python's `str.split` with a
 * separator, `str.join`, `str.replace`, `str.strip`, decimal rendering and
 * `int()` parsing. Characters are Dafny `char`s; digits are the ASCII ones and
 * whitespace is Python's.
 */
module Strings {
  import opened Options

  predicate IsDigit(c: char) { '0' <= c <= '9' }

  /**
   * The characters Python's `str.isspace()` accepts, which are the ones
   * `str.strip()` removes: the ASCII controls 9-13 and 28-31, the space, and
   * the Unicode separators.
   */
  predicate IsSpace(c: char)
  {
    || c == ' ' || '\t' <= c <= '\r' || '\U{1C}' <= c <= '\U{1F}'
    || c == '\U{85}' || c == '\U{A0}' || c == '\U{1680}' || '\U{2000}' <= c <= '\U{200A}'
    || c == '\U{2028}' || c == '\U{2029}' || c == '\U{202F}' || c == '\U{205F}' || c == '\U{3000}'
  }

  predicate AllDigits(s: string) { forall i :: 0 <= i < |s| ==> IsDigit(s[i]) }

  /** The longest run of digits in `s` starting at `from`. */
  function DigitRun(s: string, from: nat): (r: string)
    requires from <= |s|
    ensures AllDigits(r) && from + |r| <= |s| && s[from..from + |r|] == r
    ensures from + |r| < |s| ==> !IsDigit(s[from + |r|])
    decreases |s| - from
  {
    if from < |s| && IsDigit(s[from]) then [s[from]] + DigitRun(s, from + 1) else ""
  }

  /** A digit string followed by a non-digit (or the end) is the run found there. */
  lemma {:induction false} DigitRunIs(s: string, from: nat, d: string)
    requires from + |d| <= |s| && s[from..from + |d|] == d && AllDigits(d)
    requires from + |d| == |s| || !IsDigit(s[from + |d|])
    ensures DigitRun(s, from) == d
    decreases |d|
  {
    if |d| > 0 {
      assert s[from] == d[0];
      assert s[from + 1..from + 1 + |d[1..]|] == d[1..];
      DigitRunIs(s, from + 1, d[1..]);
      assert d == [d[0]] + d[1..];
    }
  }

  // ---------------------------------------------------------------------------
  // Substring search

  /** `pat` occurs in `s` starting at position `i`. */
  predicate OccursAt(s: string, pat: string, i: int)
  {
    0 <= i && i + |pat| <= |s| && s[i..i + |pat|] == pat
  }

  /** The leftmost occurrence of `pat` in `s` at or after `from`. */
  function FindFrom(s: string, pat: string, from: nat): (r: Option<nat>)
    requires from <= |s|
    ensures r.Some? ==> from <= r.value && OccursAt(s, pat, r.value)
    ensures r.Some? ==> forall j :: from <= j < r.value ==> !OccursAt(s, pat, j)
    ensures r.None? ==> forall j :: from <= j ==> !OccursAt(s, pat, j)
    decreases |s| - from
  {
    if OccursAt(s, pat, from) then Some(from)
    else if from == |s| then None
    else FindFrom(s, pat, from + 1)
  }

  /** The leftmost occurrence of `pat` in `s`, as Python's `str.find`. */
  function FindFirst(s: string, pat: string): (r: Option<nat>)
    ensures r.Some? ==> OccursAt(s, pat, r.value) && forall j :: 0 <= j < r.value ==> !OccursAt(s, pat, j)
    ensures r.None? <==> forall j :: !OccursAt(s, pat, j)
  {
    FindFrom(s, pat, 0)
  }

  /** Python's `pat in s` and JavaScript's `s.includes(pat)`. */
  predicate Contains(s: string, pat: string)
  {
    FindFirst(s, pat).Some?
  }

  lemma ContainsAt(s: string, pat: string, i: int)
    requires OccursAt(s, pat, i)
    ensures Contains(s, pat)
  {
  }

  /** A string that lacks one of the characters of `pat` cannot contain `pat`. */
  lemma {:induction false} MissingCharNotContained(s: string, pat: string, c: char)
    requires c in pat && c !in s
    ensures !Contains(s, pat)
  {
    var m :| 0 <= m < |pat| && pat[m] == c;
    forall i | 0 <= i && i + |pat| <= |s|
      ensures !OccursAt(s, pat, i)
    {
      assert s[i..i + |pat|][m] == s[i + m];
    }
  }

  lemma EmptyIsContained(s: string)
    ensures Contains(s, "")
  {
    assert OccursAt(s, "", 0);
  }

  // ---------------------------------------------------------------------------
  // Join and split

  /** Python's `sep.join(parts)` and JavaScript's `parts.join(sep)`. */
  function Join(parts: seq<string>, sep: string): string
  {
    if |parts| == 0 then ""
    else if |parts| == 1 then parts[0]
    else parts[0] + sep + Join(parts[1..], sep)
  }

  /**
   * Python's `s.split(sep)` for a non-empty separator: cut at every
   * occurrence, scanning left to right without overlap. Joining the parts
   * back with the separator gives the string.
   */
  function Split(s: string, sep: string): (parts: seq<string>)
    requires |sep| > 0
    ensures |parts| >= 1
    ensures Join(parts, sep) == s
    decreases |s|
  {
    match FindFirst(s, sep)
    case None => [s]
    case Some(i) =>
      var tail := Split(s[i + |sep|..], sep);
      JoinCons(s[..i], tail, sep);
      assert s == s[..i] + s[i..i + |sep|] + s[i + |sep|..];
      [s[..i]] + tail
  }

  lemma JoinCons(p: string, tail: seq<string>, sep: string)
    requires |tail| >= 1
    ensures Join([p] + tail, sep) == p + sep + Join(tail, sep)
  {
    assert ([p] + tail)[1..] == tail;
  }

  /** A join ends with its last part. */
  lemma {:induction false} JoinEndsWithLast(parts: seq<string>, sep: string)
    requires |parts| >= 1
    ensures var l := parts[|parts| - 1];
            |l| <= |Join(parts, sep)| && Join(parts, sep)[|Join(parts, sep)| - |l|..] == l
    decreases |parts|
  {
    if |parts| > 1 {
      var l := parts[|parts| - 1];
      var t := Join(parts[1..], sep);
      var u := parts[0] + sep;
      JoinEndsWithLast(parts[1..], sep);
      assert parts[1..][|parts[1..]| - 1] == l;
      assert Join(parts, sep) == u + t;
      assert (u + t)[|u + t| - |l|..] == t[|t| - |l|..];
    }
  }

  /** Every part of a join is a piece of the joined string. */
  lemma {:induction false} JoinPartInside(parts: seq<string>, sep: string, k: nat) returns (a: nat)
    requires k < |parts|
    ensures a + |parts[k]| <= |Join(parts, sep)| && Join(parts, sep)[a..a + |parts[k]|] == parts[k]
    decreases |parts|
  {
    var j := Join(parts, sep);
    if k == 0 {
      a := 0;
      assert j[..|parts[0]|] == parts[0] by {
        if |parts| > 1 {
          assert j == parts[0] + (sep + Join(parts[1..], sep));
        }
      }
    } else {
      var rest := Join(parts[1..], sep);
      assert j == parts[0] + sep + rest;
      var b := JoinPartInside(parts[1..], sep, k - 1);
      a := |parts[0]| + |sep| + b;
      assert j[a..a + |parts[k]|] == parts[k] by {
        assert parts[1..][k - 1] == parts[k];
        assert j[|parts[0]| + |sep|..] == rest;
        SliceOfSlice(j, |parts[0]| + |sep|, |j|, b, b + |parts[k]|);
      }
    }
  }

  /** Every part of a split is a piece of the string. */
  lemma SplitPartInside(s: string, sep: string, k: nat) returns (a: nat)
    requires |sep| > 0 && k < |Split(s, sep)|
    ensures a + |Split(s, sep)[k]| <= |s| && s[a..a + |Split(s, sep)[k]|] == Split(s, sep)[k]
  {
    a := JoinPartInside(Split(s, sep), sep, k);
  }

  /** A string contains whatever one of its split parts contains. */
  lemma PartContains(s: string, sep: string, k: nat, pat: string)
    requires |sep| > 0 && k < |Split(s, sep)| && Contains(Split(s, sep)[k], pat)
    ensures Contains(s, pat)
  {
    var a := SplitPartInside(s, sep, k);
    PieceContains(s, a, Split(s, sep)[k], pat);
  }

  /** A string contains whatever a piece of it contains. */
  lemma PieceContains(s: string, a: nat, piece: string, pat: string)
    requires a + |piece| <= |s| && s[a..a + |piece|] == piece && Contains(piece, pat)
    ensures Contains(s, pat)
  {
    var i := FindFirst(piece, pat).value;
    assert OccursAt(s, pat, a + i) by {
      SliceOfSlice(s, a, a + |piece|, i, i + |pat|);
    }
    ContainsAt(s, pat, a + i);
  }

  /** A slice of a slice is a slice of the whole. */
  lemma SliceOfSlice(s: string, lo: int, hi: int, i: int, j: int)
    requires 0 <= lo <= hi <= |s| && 0 <= i <= j <= hi - lo
    ensures s[lo..hi][i..j] == s[lo + i..lo + j]
  {
    var t := s[lo..hi];
    assert forall k :: 0 <= k < j - i ==> t[i..j][k] == t[i + k] == s[lo + i + k] == s[lo + i..lo + j][k];
  }

  /** No part that `Split` returns contains the separator. */
  lemma {:induction false} SplitPartsLackSeparator(s: string, sep: string)
    requires |sep| > 0
    ensures forall k :: 0 <= k < |Split(s, sep)| ==> !Contains(Split(s, sep)[k], sep)
    decreases |s|
  {
    match FindFirst(s, sep)
    case None =>
    case Some(i) =>
      forall j | 0 <= j && j + |sep| <= i
        ensures !OccursAt(s[..i], sep, j)
      {
        assert s[..i][j..j + |sep|] == s[j..j + |sep|];
        assert !OccursAt(s, sep, j);
      }
      assert !Contains(s[..i], sep);
      SplitPartsLackSeparator(s[i + |sep|..], sep);
  }

  /**
   * `sep` holds `c` at position `m` only, and `c` appears in no part: then the
   * separators that `Join` inserts are exactly the occurrences `Split` finds.
   */
  predicate Marks(sep: string, c: char, m: int)
  {
    0 <= m < |sep| && sep[m] == c && forall n :: 0 <= n < |sep| && n != m ==> sep[n] != c
  }

  lemma {:induction false} NoEarlyOccurrence(p: string, sep: string, rest: string, c: char, m: int)
    requires Marks(sep, c, m) && c !in p
    ensures forall j :: 0 <= j < |p| ==> !OccursAt(p + sep + rest, sep, j)
  {
    var s := p + sep + rest;
    forall j | 0 <= j < |p|
      ensures !OccursAt(s, sep, j)
    {
      if j + |sep| <= |s| {
        assert s[j..j + |sep|][m] == s[j + m];
        if j + m < |p| {
          assert s[j + m] == p[j + m];
        } else {
          assert s[j + m] == sep[j + m - |p|];
        }
      }
    }
  }

  /** Splitting a join recovers the parts (Python's `split` after `join`). */
  lemma {:induction false} SplitJoin(parts: seq<string>, sep: string, c: char, m: int)
    requires |parts| >= 1
    requires Marks(sep, c, m)
    requires forall k :: 0 <= k < |parts| ==> c !in parts[k]
    ensures Split(Join(parts, sep), sep) == parts
    decreases |parts|
  {
    var p := parts[0];
    if |parts| == 1 {
      MissingCharNotContained(p, sep, c);
    } else {
      var rest := Join(parts[1..], sep);
      var s := p + sep + rest;
      assert Join(parts, sep) == s;
      NoEarlyOccurrence(p, sep, rest, c, m);
      assert s[|p|..|p| + |sep|] == sep;
      assert OccursAt(s, sep, |p|);
      assert FindFirst(s, sep) == Some(|p|);
      assert s[..|p|] == p;
      assert s[|p| + |sep|..] == rest;
      SplitJoin(parts[1..], sep, c, m);
    }
  }

  /** The first character of `sep` appears nowhere else in it, so two occurrences cannot overlap. */
  predicate LeadsOnce(sep: string)
  {
    |sep| > 0 && forall d :: 0 < d < |sep| ==> sep[d] != sep[0]
  }

  lemma NoOccurrenceInside(s: string, sep: string, i: int, j: int)
    requires LeadsOnce(sep) && OccursAt(s, sep, i)
    ensures i < j < i + |sep| ==> !OccursAt(s, sep, j)
  {
    if i < j < i + |sep| && j + |sep| <= |s| {
      assert s[j..j + |sep|][0] == s[j];
      assert s[i..i + |sep|][j - i] == s[j];
    }
  }

  /** `split` cuts at the leftmost occurrence and carries on after it. */
  lemma SplitStep(s: string, sep: string, i: nat)
    requires |sep| > 0 && FindFirst(s, sep) == Some(i)
    ensures Split(s, sep) == [s[..i]] + Split(s[i + |sep|..], sep)
  {
  }

  /** What follows the last occurrence of `sep` in `s`, or all of `s` when there is none. */
  function LastPart(s: string, sep: string): string
    requires |sep| > 0
    decreases |s|
  {
    match FindFirst(s, sep)
    case None => s
    case Some(i) => LastPart(s[i + |sep|..], sep)
  }

  /** The last of a non-empty list of parts (Python's `parts[-1]`). */
  function LastOf(parts: seq<string>): string
    requires |parts| >= 1
  {
    parts[|parts| - 1]
  }

  /** `s.split(sep)[-1]` is the text after the last occurrence of `sep`. */
  lemma {:induction false} SplitLast(s: string, sep: string)
    requires |sep| > 0
    ensures LastOf(Split(s, sep)) == LastPart(s, sep)
    decreases |s|
  {
    match FindFirst(s, sep)
    case None =>
      assert Split(s, sep) == [s];
    case Some(i) =>
      SplitStepLast(s, sep, i);
      assert LastPart(s, sep) == LastPart(s[i + |sep|..], sep);
      SplitLast(s[i + |sep|..], sep);
  }

  lemma SplitStepLast(s: string, sep: string, i: nat)
    requires |sep| > 0 && FindFirst(s, sep) == Some(i)
    ensures LastOf(Split(s, sep)) == LastOf(Split(s[i + |sep|..], sep))
  {
    SplitStep(s, sep, i);
    LastOfCons(Split(s, sep), s[..i], Split(s[i + |sep|..], sep));
  }

  lemma LastOfCons(parts: seq<string>, x: string, tail: seq<string>)
    requires |tail| >= 1 && parts == [x] + tail
    ensures LastOf(parts) == LastOf(tail)
  {
  }

  /** When `t` holds no `sep`, the last part of splitting `a + sep + t` on `sep` is `t`. */
  lemma SplitLastAfter(a: string, sep: string, t: string)
    requires LeadsOnce(sep) && !Contains(t, sep)
    ensures LastOf(Split(a + sep + t, sep)) == t
  {
    SplitLast(a + sep + t, sep);
    LastPartAfter(a, sep, t);
  }

  lemma LastPartAfter(a: string, sep: string, t: string)
    requires LeadsOnce(sep) && !Contains(t, sep)
    ensures LastPart(a + sep + t, sep) == t
  {
    var s := a + sep + t;
    assert s[|a|..|a| + |sep|] == sep;
    assert s[|a| + |sep|..] == t;
    LastPartFrom(s, sep, |a|, t);
  }

  /** An occurrence of `sep` at `k` followed by text `t` without `sep` is the last one. */
  lemma {:induction false} LastPartFrom(s: string, sep: string, k: nat, t: string)
    requires LeadsOnce(sep) && OccursAt(s, sep, k) && s[k + |sep|..] == t && !Contains(t, sep)
    ensures LastPart(s, sep) == t
    decreases |s|, 1
  {
    var i := FirstNotInside(s, sep, k);
    if i < k {
      LastPartPast(s, sep, i, k, t);
    } else {
      assert s[i + |sep|..] == t;
      LastPartWhole(t, sep);
    }
  }

  /** An earlier occurrence at `i` is cut off, and the one at `k` is still last in what remains. */
  lemma {:induction false} LastPartPast(s: string, sep: string, i: nat, k: nat, t: string)
    requires LeadsOnce(sep) && OccursAt(s, sep, k) && s[k + |sep|..] == t && !Contains(t, sep)
    requires i + |sep| <= k
    ensures LastPart(s[i + |sep|..], sep) == t
    decreases |s|, 0
  {
    var rest := s[i + |sep|..];
    var k' := k - i - |sep|;
    OccursAfterCut(s, sep, i, k);
    LastPartFrom(rest, sep, k', t);
  }

  /** Text without `sep` is its own last part. */
  lemma LastPartWhole(t: string, sep: string)
    requires |sep| > 0 && !Contains(t, sep)
    ensures LastPart(t, sep) == t
  {
    assert FindFirst(t, sep).None?;
  }

  /** The first occurrence of `sep` is the one at `k` or ends before `k`; `LastPart` moves past it. */
  lemma FirstNotInside(s: string, sep: string, k: nat) returns (i: nat)
    requires LeadsOnce(sep) && OccursAt(s, sep, k)
    ensures FindFirst(s, sep) == Some(i) && (i == k || i + |sep| <= k)
    ensures LastPart(s, sep) == LastPart(s[i + |sep|..], sep)
  {
    i := FindFirst(s, sep).value;
    NoOccurrenceInside(s, sep, i, k);
  }

  /** Cutting `s` after position `i + |sep|` keeps a later occurrence and what follows it. */
  lemma OccursAfterCut(s: string, sep: string, i: nat, k: nat)
    requires OccursAt(s, sep, k) && i + |sep| <= k
    ensures OccursAt(s[i + |sep|..], sep, k - i - |sep|)
    ensures s[i + |sep|..][k - i..] == s[k + |sep|..]
  {
    var rest := s[i + |sep|..];
    var k' := k - i - |sep|;
    assert rest[k'..k' + |sep|] == s[k..k + |sep|];
  }

  /** Python's `s.replace(pat, rep)`: every non-overlapping occurrence, left to right. */
  function ReplaceAll(s: string, pat: string, rep: string): (r: string)
    requires |pat| > 0
    ensures !Contains(s, pat) ==> r == s
  {
    Join(Split(s, pat), rep)
  }

  /** `replace` rewrites the leftmost occurrence and carries on after it. */
  lemma ReplaceAllStep(s: string, pat: string, rep: string, i: nat)
    requires |pat| > 0 && FindFirst(s, pat) == Some(i)
    ensures ReplaceAll(s, pat, rep) == s[..i] + rep + ReplaceAll(s[i + |pat|..], pat, rep)
  {
    var tail := Split(s[i + |pat|..], pat);
    assert Split(s, pat) == [s[..i]] + tail;
    JoinCons(s[..i], tail, rep);
  }

  /** `s` with every `c` removed (Python's `s.replace("&", "")`). */
  function RemoveChar(s: string, c: char): (r: string)
    ensures c !in r
    ensures forall x {:trigger multiset(r)[x]} :: x != c ==> multiset(r)[x] == multiset(s)[x]
  {
    if |s| == 0 then ""
    else
      assert s == [s[0]] + s[1..];
      if s[0] == c then RemoveChar(s[1..], c)
    else [s[0]] + RemoveChar(s[1..], c)
  }

  lemma {:induction false} RemoveCharAbsent(s: string, c: char)
    requires c !in s
    ensures RemoveChar(s, c) == s
  {
    if |s| > 0 {
      RemoveCharAbsent(s[1..], c);
    }
  }

  lemma {:induction false} RemoveCharAppend(a: string, b: string, c: char)
    ensures RemoveChar(a + b, c) == RemoveChar(a, c) + RemoveChar(b, c)
  {
    if |a| > 0 {
      assert (a + b)[1..] == a[1..] + b;
      RemoveCharAppend(a[1..], b, c);
    } else {
      assert a + b == b;
    }
  }

  /** Removing the one occurrence of `c` joins the text around it. */
  lemma RemoveCharOnce(a: string, b: string, c: char)
    requires c !in a && c !in b
    ensures RemoveChar(a + [c] + b, c) == a + b
  {
    var l := RemoveChar(a + [c], c);
    assert l == a by {
      RemoveCharAppend(a, [c], c);
      RemoveCharAbsent(a, c);
      assert RemoveChar([c], c) == RemoveChar([c][1..], c) == "";
    }
    assert RemoveChar(b, c) == b by { RemoveCharAbsent(b, c); }
    RemoveCharAppend(a + [c], b, c);
  }

  /** The digits of `s`, in order (Python's `re.sub(r"[^\d]", "", s)`). */
  function DigitsOf(s: string): (r: string)
    ensures AllDigits(r)
    ensures AllDigits(s) ==> r == s
    ensures forall x :: IsDigit(x) ==> multiset(r)[x] == multiset(s)[x]
  {
    if |s| == 0 then ""
    else
      assert s == [s[0]] + s[1..];
      if IsDigit(s[0]) then [s[0]] + DigitsOf(s[1..])
    else DigitsOf(s[1..])
  }

  /** The digits are kept in the order they appear. */
  lemma {:induction false} DigitsOfAppend(a: string, b: string)
    ensures DigitsOf(a + b) == DigitsOf(a) + DigitsOf(b)
  {
    if |a| > 0 {
      assert (a + b)[0] == a[0] && (a + b)[1..] == a[1..] + b;
      DigitsOfAppend(a[1..], b);
    } else {
      assert a + b == b;
    }
  }

  // ---------------------------------------------------------------------------
  // Whitespace

  function TrimStart(s: string): (r: string)
    ensures |r| <= |s| && r == s[|s| - |r|..]
    ensures |r| > 0 ==> !IsSpace(r[0])
    ensures forall i :: 0 <= i < |s| - |r| ==> IsSpace(s[i])
  {
    if |s| > 0 && IsSpace(s[0]) then TrimStart(s[1..]) else s
  }

  function TrimEnd(s: string): (r: string)
    ensures |r| <= |s| && r == s[..|r|]
    ensures |r| > 0 ==> !IsSpace(r[|r| - 1])
    ensures forall i :: |r| <= i < |s| ==> IsSpace(s[i])
  {
    if |s| > 0 && IsSpace(s[|s| - 1]) then TrimEnd(s[..|s| - 1]) else s
  }

  /** Python's `s.strip()`: the result is trimmed. */
  function Strip(s: string): (r: string)
    ensures Trimmed(r) && |r| <= |s|
  {
    var t := TrimStart(s);
    var r := TrimEnd(t);
    assert |r| > 0 ==> r[0] == t[0];
    r
  }

  /** A trimmed string is kept as it is, so stripping twice is stripping once. */
  lemma StripKeepsTrimmed(s: string)
    requires Trimmed(s)
    ensures Strip(s) == s
  {
  }

  predicate Trimmed(s: string)
  {
    |s| == 0 || (!IsSpace(s[0]) && !IsSpace(s[|s| - 1]))
  }

  /** `Strip` removes only surrounding whitespace and leaves a trimmed string. */
  lemma StripShape(s: string) returns (i: nat)
    ensures i + |Strip(s)| <= |s| && s[i..i + |Strip(s)|] == Strip(s)
    ensures forall k :: 0 <= k < i ==> IsSpace(s[k])
    ensures forall k :: i + |Strip(s)| <= k < |s| ==> IsSpace(s[k])
  {
    var t := TrimStart(s);
    var r := TrimEnd(t);
    assert Strip(s) == r;
    i := |s| - |t|;
    assert i + |r| <= |s| && s[i..i + |r|] == r by {
      SliceOfTrimmed(s, t, r, i);
    }
    assert forall k :: i + |r| <= k < |s| ==> IsSpace(s[k]) by {
      SliceOfTrimmed(s, t, r, i);
    }
  }

  lemma SliceOfTrimmed(s: string, t: string, r: string, i: nat)
    requires i <= |s| && t == s[i..] && |r| <= |t| && r == t[..|r|]
    ensures i + |r| <= |s| && s[i..i + |r|] == r
    ensures forall k :: i + |r| <= k < |s| ==> s[k] == t[k - i]
  {
  }

  // ---------------------------------------------------------------------------
  // Decimal numbers

  function DigitValue(c: char): nat
    requires IsDigit(c)
  {
    (c as int - '0' as int) as nat
  }

  function DigitChar(d: nat): (c: char)
    requires d < 10
    ensures IsDigit(c) && DigitValue(c) == d
  {
    ('0' as int + d) as char
  }

  /** The value of a digit string, most significant digit first. */
  function DigitsToNat(s: string): nat
    requires AllDigits(s)
  {
    if |s| == 0 then 0
    else DigitsToNat(s[..|s| - 1]) * 10 + DigitValue(s[|s| - 1])
  }

  /** Decimal rendering without leading zeros, as Python's `str(n)`. */
  function NatToString(n: nat): (r: string)
    ensures |r| > 0 && AllDigits(r)
    ensures DigitsToNat(r) == n
    ensures |r| > 1 ==> r[0] != '0'
  {
    if n < 10 then [DigitChar(n)]
    else
      var r := NatToString(n / 10) + [DigitChar(n % 10)];
      assert r[..|r| - 1] == NatToString(n / 10);
      r
  }

  /** Python's `str(i)` and JavaScript's `i.toString()` for an integer. */
  function IntToString(i: int): (r: string)
    ensures |r| > 0
    ensures i >= 0 ==> AllDigits(r)
    ensures i < 0 ==> r[0] == '-' && AllDigits(r[1..])
  {
    if i < 0 then "-" + NatToString(-i) else NatToString(i)
  }

  /**
   * Python's `int(s)` on a plain decimal: an optional sign followed by one
   * or more digits (leading zeros allowed); anything else is a ValueError.
   */
  function ParseInt(s: string): (r: Option<int>)
    ensures r.Some? <==> (|s| > 0 && AllDigits(s)) || (|s| > 1 && (s[0] == '-' || s[0] == '+') && AllDigits(s[1..]))
  {
    if |s| > 0 && (s[0] == '-' || s[0] == '+') then
      var body := s[1..];
      if |body| > 0 && AllDigits(body) then
        var v: int := DigitsToNat(body);
        Some(if s[0] == '-' then -v else v)
      else None
    else if |s| > 0 && AllDigits(s) then Some(DigitsToNat(s))
    else None
  }

  /** Rendering an integer and parsing it back gives the integer. */
  lemma ParseIntToString(i: int)
    ensures ParseInt(IntToString(i)) == Some(i)
  {
    if i < 0 {
      assert IntToString(i)[1..] == NatToString(-i);
    }
  }

  lemma {:induction false} LeadingZero(s: string)
    requires AllDigits(s)
    ensures DigitsToNat("0" + s) == DigitsToNat(s)
    decreases |s|
  {
    var z := "0" + s;
    if |s| == 0 {
      assert z[..0] == "";
    } else {
      assert z[..|z| - 1] == "0" + s[..|s| - 1];
      assert z[|z| - 1] == s[|s| - 1];
      LeadingZero(s[..|s| - 1]);
    }
  }

  /** `int()` ignores a leading zero: `int("07") == int("7")`. */
  lemma ParseIntLeadingZero(s: string)
    requires |s| > 0 && AllDigits(s)
    ensures ParseInt("0" + s) == ParseInt(s)
  {
    LeadingZero(s);
    assert ("0" + s)[0] == '0';
  }
}
