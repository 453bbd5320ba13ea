/** The custom inline-image syntax `[alt: src]` of the markdown renderer.

    The renderer finds it with the global regular expression
    `\[([^\]]+?): (?! )([^\]]+?)\]`.  This module states what that expression
    accepts (`IsImageSyntax`), implements the backtracking search it performs at
    one position (`MatchAt`) and the leftmost, non-overlapping scan that
    `matchAll` and `replace` perform over a whole string (`FindFrom`, `FindAll`,
    `RemoveAll`), and proves that the implementation agrees with the meaning. */
module ImageSyntax {
  import opened Wrappers

  /** One occurrence of `[alt: src]` in a string s:
      s[start] is '[', s[sep..sep+2] is ": ", s[close] is ']'. */
  datatype Match = Match(start: nat, sep: nat, close: nat)

  function Alt(s: string, m: Match): string
    requires m.start < m.sep <= m.close <= |s|
  {
    s[m.start + 1..m.sep]
  }

  function Src(s: string, m: Match): string
    requires m.sep + 2 <= m.close <= |s|
  {
    s[m.sep + 2..m.close]
  }

  /** The whole matched text, kept by the renderer as `data-original`. */
  function Original(s: string, m: Match): string
    requires m.start <= m.close < |s|
  {
    s[m.start..m.close + 1]
  }

  /** What the regular expression accepts at m: a '[', a non-empty alt without ']',
      ": ", a non-empty src that does not start with a space and has no ']', then ']'. */
  ghost predicate IsImageSyntax(s: string, m: Match)
  {
    m.start + 1 < m.sep && m.sep + 2 < m.close < |s|
    && s[m.start] == '[' && s[m.close] == ']'
    && s[m.sep] == ':' && s[m.sep + 1] == ' ' && s[m.sep + 2] != ' '
    && (forall k :: m.start < k < m.close ==> s[k] != ']')
  }

  /** The position of the first ']' at or after i, or |s| when there is none. */
  function FirstClose(s: string, i: nat): (e: nat)
    requires i <= |s|
    ensures i <= e <= |s|
    ensures e < |s| ==> s[e] == ']'
    decreases |s| - i
  {
    if i == |s| || s[i] == ']' then i else FirstClose(s, i + 1)
  }

  lemma {:induction false} FirstCloseIsFirst(s: string, i: nat)
    requires i <= |s|
    ensures forall k :: i <= k < FirstClose(s, i) ==> s[k] != ']'
    decreases |s| - i
  {
    if i < |s| && s[i] != ']' {
      FirstCloseIsFirst(s, i + 1);
    }
  }

  /** ": " at p, followed by a character other than a space before the ']' at close. */
  predicate SeparatorAt(s: string, p: nat, close: nat)
  {
    p + 2 < close <= |s| && s[p] == ':' && s[p + 1] == ' ' && s[p + 2] != ' '
  }

  /** The smallest separator position at or after p: the lazy `+?` of the alt group
      tries the shortest alt first. */
  function FirstSeparator(s: string, p: nat, close: nat): (r: Option<nat>)
    requires close <= |s|
    ensures r.Some? ==> p <= r.value && SeparatorAt(s, r.value, close)
    decreases close - p
  {
    if p + 2 >= close then None
    else if SeparatorAt(s, p, close) then Some(p)
    else FirstSeparator(s, p + 1, close)
  }

  lemma {:induction false} FirstSeparatorIsFirst(s: string, p: nat, close: nat)
    requires close <= |s|
    ensures var r := FirstSeparator(s, p, close);
      forall q :: p <= q && (r.None? || q < r.value) ==> !SeparatorAt(s, q, close)
    decreases close - p
  {
    if p + 2 < close && !SeparatorAt(s, p, close) {
      FirstSeparatorIsFirst(s, p + 1, close);
    }
  }

  /** The regular expression tried at position i alone. */
  function MatchAt(s: string, i: nat): (r: Option<Match>)
    requires i <= |s|
    ensures r.Some? ==> r.value.start == i && i + 1 < r.value.sep && r.value.sep + 2 < r.value.close < |s|
  {
    if i == |s| || s[i] != '[' then None
    else
      var e := FirstClose(s, i + 1);
      if e == |s| then None
      else match FirstSeparator(s, i + 2, e)
        case None => None
        case Some(p) => Some(Match(i, p, e))
  }

  /** Every accepted occurrence starting at i ends at the first ']' after i. */
  lemma {:induction false} CloseIsFirst(s: string, m: Match)
    requires IsImageSyntax(s, m)
    ensures FirstClose(s, m.start + 1) == m.close
  {
    FirstCloseIsFirst(s, m.start + 1);
  }

  /** `MatchAt` finds an occurrence at i exactly when the regular expression accepts
      one there, and then the one with the shortest alt. */
  lemma {:induction false} MatchAtMeaning(s: string, i: nat)
    requires i <= |s|
    ensures MatchAt(s, i).Some? ==> IsImageSyntax(s, MatchAt(s, i).value)
    ensures MatchAt(s, i).Some? ==>
      forall m: Match :: m.start == i && IsImageSyntax(s, m) ==> MatchAt(s, i).value.sep <= m.sep && MatchAt(s, i).value.close == m.close
    ensures MatchAt(s, i).None? ==> forall m: Match :: m.start == i ==> !IsImageSyntax(s, m)
  {
    if i < |s| && s[i] == '[' {
      FirstCloseIsFirst(s, i + 1);
      var e := FirstClose(s, i + 1);
      if e < |s| {
        FirstSeparatorIsFirst(s, i + 2, e);
      }
    }
    forall m: Match | m.start == i && IsImageSyntax(s, m)
      ensures MatchAt(s, i).Some? && MatchAt(s, i).value.sep <= m.sep && MatchAt(s, i).value.close == m.close
    {
      CloseIsFirst(s, m);
      assert SeparatorAt(s, m.sep, m.close);
    }
  }

  /** Position k lies inside one of the matches. */
  ghost predicate Covered(ms: seq<Match>, k: nat)
  {
    exists j :: 0 <= j < |ms| && ms[j].start <= k <= ms[j].close
  }

  /** The global scan from position i: try each position in turn, and after a match
      resume just past its ']' (JavaScript's `lastIndex`). */
  function FindFrom(s: string, i: nat): (ms: seq<Match>)
    requires i <= |s|
    ensures forall l :: 0 <= l < |ms| ==> i <= ms[l].start && ms[l].start + 1 < ms[l].sep && ms[l].sep + 2 < ms[l].close < |s|
    ensures forall l :: 0 <= l < |ms| - 1 ==> ms[l].close < ms[l + 1].start
    decreases |s| - i
  {
    if i == |s| then []
    else match MatchAt(s, i)
      case Some(m) =>
        var rest := FindFrom(s, m.close + 1);
        assert forall l :: 0 < l < |rest| + 1 ==> ([m] + rest)[l] == rest[l - 1];
        [m] + rest
      case None => FindFrom(s, i + 1)
  }

  /** The scan reports only places where the expression matches. */
  lemma {:induction false} FindFromSound(s: string, i: nat)
    requires i <= |s|
    ensures forall l :: 0 <= l < |FindFrom(s, i)| ==> MatchAt(s, FindFrom(s, i)[l].start) == Some(FindFrom(s, i)[l])
    decreases |s| - i
  {
    if i < |s| {
      match MatchAt(s, i)
      case Some(m) =>
        FindFromSound(s, m.close + 1);
        var rest := FindFrom(s, m.close + 1);
        var ms := [m] + rest;
        forall l | 0 <= l < |ms| ensures MatchAt(s, ms[l].start) == Some(ms[l]) {
          if l > 0 { assert ms[l] == rest[l - 1]; }
        }
      case None =>
        FindFromSound(s, i + 1);
    }
  }

  /** Every position from i on where the expression could match is the start of a
      match in ms or lies inside one. */
  ghost predicate Leftmost(s: string, i: nat, ms: seq<Match>)
    requires i <= |s|
  {
    forall k :: i <= k < |s| && MatchAt(s, k).Some? ==> Covered(ms, k)
  }

  /** The scan is leftmost: no position where the expression could match is skipped. */
  lemma {:induction false} FindFromLeftmost(s: string, i: nat)
    requires i <= |s|
    ensures Leftmost(s, i, FindFrom(s, i))
    decreases |s| - i
  {
    if i < |s| {
      var r := MatchAt(s, i);
      if r.Some? {
        FindFromLeftmost(s, r.value.close + 1);
        CoveredAfterMatch(s, i, r.value);
      } else {
        FindFromLeftmost(s, i + 1);
        assert FindFrom(s, i) == FindFrom(s, i + 1);
      }
    }
  }

  lemma {:induction false} CoveredAfterMatch(s: string, i: nat, m: Match)
    requires i < |s| && MatchAt(s, i) == Some(m)
    requires Leftmost(s, m.close + 1, FindFrom(s, m.close + 1))
    ensures Leftmost(s, i, FindFrom(s, i))
  {
    var rest := FindFrom(s, m.close + 1);
    assert FindFrom(s, i) == [m] + rest;
    forall k | i <= k < |s| && MatchAt(s, k).Some? ensures Covered([m] + rest, k) {
      if k <= m.close {
        CoveredByHead(m, rest, k);
      } else {
        CoveredByTail(m, rest, k);
      }
    }
  }

  lemma {:induction false} CoveredByHead(m: Match, rest: seq<Match>, k: nat)
    requires m.start <= k <= m.close
    ensures Covered([m] + rest, k)
  {
    assert ([m] + rest)[0] == m;
  }

  lemma {:induction false} CoveredByTail(m: Match, rest: seq<Match>, k: nat)
    requires Covered(rest, k)
    ensures Covered([m] + rest, k)
  {
    var j :| 0 <= j < |rest| && rest[j].start <= k <= rest[j].close;
    assert ([m] + rest)[j + 1] == rest[j];
  }

  /** All occurrences, as `content.matchAll(IMAGE_REGEX)` lists them. */
  function FindAll(s: string): (ms: seq<Match>)
    ensures forall l :: 0 <= l < |ms| ==> ms[l].start + 1 < ms[l].sep && ms[l].sep + 2 < ms[l].close < |s|
  {
    FindFrom(s, 0)
  }

  /** Every occurrence `matchAll` lists is one the regular expression accepts there. */
  lemma {:induction false} FindAllAccepted(s: string, i: nat)
    requires i < |FindAll(s)|
    ensures IsImageSyntax(s, FindAll(s)[i])
  {
    var m := FindAll(s)[i];
    FindFromSound(s, 0);
    assert MatchAt(s, m.start) == Some(m);
    MatchAtMeaning(s, m.start);
  }

  /** `s.replace(IMAGE_REGEX, "")` from position i on: the same scan as `FindFrom`,
      copying the characters outside the matches and dropping the matches. */
  function RemoveFrom(s: string, i: nat): string
    requires i <= |s|
    decreases |s| - i
  {
    if i == |s| then ""
    else match MatchAt(s, i)
      case Some(m) => RemoveFrom(s, m.close + 1)
      case None => [s[i]] + RemoveFrom(s, i + 1)
  }

  /** `s.replace(IMAGE_REGEX, "")`. */
  function RemoveAll(s: string): string
  {
    RemoveFrom(s, 0)
  }

  /** The matched text is the syntax put back together from its two captures. */
  lemma {:induction false} OriginalReassembles(s: string, m: Match)
    requires IsImageSyntax(s, m)
    ensures Original(s, m) == "[" + Alt(s, m) + ": " + Src(s, m) + "]"
  {
    var a, b := Alt(s, m), Src(s, m);
    assert s[m.start..m.sep] == "[" + a;
    assert s[m.start..m.sep + 2] == "[" + a + ": ";
    assert s[m.start..m.close] == "[" + a + ": " + b;
  }

  // Scanning a prefix of s.

  lemma {:induction false} FirstClosePrefix(s: string, n: nat, j: nat)
    requires j <= n <= |s|
    ensures FirstClose(s[..n], j) == if FirstClose(s, j) < n then FirstClose(s, j) else n
    decreases n - j
  {
    if j < n && s[j] != ']' {
      FirstClosePrefix(s, n, j + 1);
    }
  }

  lemma {:induction false} FirstSeparatorPrefix(s: string, n: nat, p: nat, close: nat)
    requires close <= n <= |s|
    ensures FirstSeparator(s[..n], p, close) == FirstSeparator(s, p, close)
    decreases close - p
  {
    if p + 2 < close {
      assert SeparatorAt(s[..n], p, close) == SeparatorAt(s, p, close);
      FirstSeparatorPrefix(s, n, p + 1, close);
    }
  }

  /** Cutting s at n keeps the matches that end before n and loses the others. */
  lemma {:induction false} MatchAtPrefix(s: string, n: nat, k: nat)
    requires k <= n <= |s|
    ensures MatchAt(s[..n], k) == if MatchAt(s, k).Some? && MatchAt(s, k).value.close < n then MatchAt(s, k) else None
  {
    if k < n && s[k] == '[' {
      FirstClosePrefix(s, n, k + 1);
      var e := FirstClose(s, k + 1);
      if e < n {
        FirstSeparatorPrefix(s, n, k + 2, e);
      }
    }
  }

  /** `s[..n].replace(IMAGE_REGEX, "")` from position i on, computed on s itself:
      a match counts only when it closes before n. */
  function RemoveBefore(s: string, i: nat, n: nat): string
    requires i <= n <= |s|
    decreases n - i
  {
    if i == n then ""
    else match MatchAt(s, i)
      case Some(m) => if m.close < n then RemoveBefore(s, m.close + 1, n) else [s[i]] + RemoveBefore(s, i + 1, n)
      case None => [s[i]] + RemoveBefore(s, i + 1, n)
  }

  /** Running `replace` on s[..n] is the bounded scan on s. */
  lemma {:induction false} RemovePrefix(s: string, n: nat, i: nat)
    requires i <= n <= |s|
    ensures RemoveFrom(s[..n], i) == RemoveBefore(s, i, n)
    decreases n - i
  {
    if i < n {
      MatchAtPrefix(s, n, i);
      if MatchAt(s, i).Some? && MatchAt(s, i).value.close < n {
        RemovePrefix(s, n, MatchAt(s, i).value.close + 1);
        RemovePrefixSkip(s, n, i);
      } else {
        RemovePrefix(s, n, i + 1);
        RemovePrefixCopy(s, n, i);
      }
    }
  }

  lemma {:induction false} RemovePrefixSkip(s: string, n: nat, i: nat)
    requires i < n <= |s| && MatchAt(s, i).Some? && MatchAt(s, i).value.close < n
    requires MatchAt(s[..n], i) == MatchAt(s, i)
    requires RemoveFrom(s[..n], MatchAt(s, i).value.close + 1) == RemoveBefore(s, MatchAt(s, i).value.close + 1, n)
    ensures RemoveFrom(s[..n], i) == RemoveBefore(s, i, n)
  {
  }

  lemma {:induction false} RemovePrefixCopy(s: string, n: nat, i: nat)
    requires i < n <= |s| && !(MatchAt(s, i).Some? && MatchAt(s, i).value.close < n)
    requires MatchAt(s[..n], i) == None
    requires RemoveFrom(s[..n], i + 1) == RemoveBefore(s, i + 1, n)
    ensures RemoveFrom(s[..n], i) == RemoveBefore(s, i, n)
  {
    assert s[..n][i] == s[i];
  }

  /** Nothing matches between j and the first match of the scan from j, so `replace`
      keeps that text whole. */
  lemma {:induction false} RemoveBeforeFirst(s: string, j: nat)
    requires j <= |s| && FindFrom(s, j) != []
    ensures RemoveBefore(s, j, FindFrom(s, j)[0].start) == s[j..FindFrom(s, j)[0].start]
    decreases |s| - j
  {
    var n := FindFrom(s, j)[0].start;
    match MatchAt(s, j)
    case Some(m) =>
      // the first match starts at j itself, so both sides are empty
      assert FindFrom(s, j)[0] == m;
    case None =>
      assert FindFrom(s, j) == FindFrom(s, j + 1);
      RemoveBeforeFirst(s, j + 1);
      assert s[j..n] == [s[j]] + s[j + 1..n];
  }

  /** The scan from a position where the expression matches. */
  lemma {:induction false} FindFromAtMatch(s: string, j: nat, m: Match)
    requires j < |s| && MatchAt(s, j) == Some(m)
    ensures FindFrom(s, j) == [m] + FindFrom(s, m.close + 1)
  {
  }

  /** Nothing matches strictly between two consecutive matches of ms. */
  ghost predicate GapsClearOf(s: string, ms: seq<Match>)
  {
    forall l, q :: 0 <= l < |ms| - 1 && ms[l].close < q < ms[l + 1].start && q <= |s| ==> MatchAt(s, q).None?
  }

  /** Nothing matches in the text between two consecutive matches of the scan. */
  lemma {:induction false} GapsClear(s: string, j: nat)
    requires j <= |s|
    ensures GapsClearOf(s, FindFrom(s, j))
    decreases |s| - j
  {
    if j == |s| {
    } else if MatchAt(s, j).Some? {
      GapsClear(s, MatchAt(s, j).value.close + 1);
      GapsAfterMatch(s, j, MatchAt(s, j).value);
    } else {
      GapsClear(s, j + 1);
      GapsAfterMiss(s, j);
    }
  }

  lemma {:induction false} GapsAfterMiss(s: string, j: nat)
    requires j < |s| && MatchAt(s, j).None?
    requires GapsClearOf(s, FindFrom(s, j + 1))
    ensures GapsClearOf(s, FindFrom(s, j))
  {
    assert FindFrom(s, j) == FindFrom(s, j + 1);
  }

  lemma {:induction false} GapsAfterMatch(s: string, j: nat, m: Match)
    requires j < |s| && MatchAt(s, j) == Some(m)
    requires GapsClearOf(s, FindFrom(s, m.close + 1))
    ensures GapsClearOf(s, FindFrom(s, j))
  {
    var rest := FindFrom(s, m.close + 1);
    var ms := [m] + rest;
    assert FindFrom(s, j) == ms;
    forall l, q | 0 <= l < |ms| - 1 && ms[l].close < q < ms[l + 1].start && q <= |s| ensures MatchAt(s, q).None? {
      if l > 0 {
        LaterGapClear(s, m, rest, l, q);
      } else {
        FirstGapClear(s, m, rest, q);
      }
    }
  }

  lemma {:induction false} LaterGapClear(s: string, m: Match, rest: seq<Match>, l: nat, q: nat)
    requires GapsClearOf(s, rest) && 0 < l < |rest| && q <= |s|
    requires ([m] + rest)[l].close < q < ([m] + rest)[l + 1].start
    ensures MatchAt(s, q).None?
  {
    var k := l - 1;
    assert ([m] + rest)[l] == rest[k] && ([m] + rest)[l + 1] == rest[k + 1];
  }

  lemma {:induction false} FirstGapClear(s: string, m: Match, rest: seq<Match>, q: nat)
    requires m.close < |s| && rest == FindFrom(s, m.close + 1) && |rest| > 0
    requires m.close < q < ([m] + rest)[1].start
    ensures MatchAt(s, q).None?
  {
    assert ([m] + rest)[1] == rest[0];
    LeadClear(s, m.close + 1, q);
  }

  /** Nothing matches between j and the first match of the scan from j. */
  lemma {:induction false} LeadClear(s: string, j: nat, q: nat)
    requires j <= q < |s| && FindFrom(s, j) != [] && q < FindFrom(s, j)[0].start
    ensures MatchAt(s, q).None?
    decreases q - j
  {
    if q > j {
      assert MatchAt(s, j).None?;
      assert FindFrom(s, j) == FindFrom(s, j + 1);
      LeadClear(s, j + 1, q);
    }
  }

  /** Where nothing matches, `replace` copies the text. */
  lemma {:induction false} RemoveCopies(s: string, p: nat, n: nat)
    requires p <= n <= |s|
    requires forall q :: p <= q < n ==> MatchAt(s, q).None?
    ensures RemoveBefore(s, p, n) == s[p..n]
    decreases n - p
  {
    if p < n {
      RemoveCopies(s, p + 1, n);
      assert s[p..n] == [s[p]] + s[p + 1..n];
    }
  }

  /** Cutting the bounded `replace` at a match m of the scan: the text up to m,
      then the text after m, with m itself gone. */
  lemma {:induction false} RemoveSplit(s: string, j: nat, k: nat, m: Match, n: nat)
    requires j <= |s| && k < |FindFrom(s, j)| && FindFrom(s, j)[k] == m && m.close < n <= |s|
    ensures RemoveBefore(s, j, n) == RemoveBefore(s, j, m.start) + RemoveBefore(s, m.close + 1, n)
    decreases |s| - j
  {
    if MatchAt(s, j).Some? {
      var m0 := MatchAt(s, j).value;
      FindFromAtMatch(s, j, m0);
      if k == 0 {
        RemoveSplitHead(s, j, m, n);
      } else {
        var rest := FindFrom(s, m0.close + 1);
        assert rest[k - 1] == m;
        RemoveSplit(s, m0.close + 1, k - 1, m, n);
        RemoveSplitSkip(s, j, m0, m, n);
      }
    } else {
      assert FindFrom(s, j) == FindFrom(s, j + 1);
      RemoveSplit(s, j + 1, k, m, n);
      RemoveSplitCopy(s, j, m, n);
    }
  }

  lemma {:induction false} RemoveSplitHead(s: string, j: nat, m: Match, n: nat)
    requires j < |s| && MatchAt(s, j) == Some(m) && m.close < n <= |s|
    ensures RemoveBefore(s, j, n) == RemoveBefore(s, j, m.start) + RemoveBefore(s, m.close + 1, n)
  {
    assert RemoveBefore(s, j, m.start) == "";
    assert RemoveBefore(s, j, n) == RemoveBefore(s, m.close + 1, n);
  }

  lemma {:induction false} RemoveSplitSkip(s: string, j: nat, m0: Match, m: Match, n: nat)
    requires j < |s| && MatchAt(s, j) == Some(m0) && m0.close < m.start < m.close < n <= |s|
    requires RemoveBefore(s, m0.close + 1, n) == RemoveBefore(s, m0.close + 1, m.start) + RemoveBefore(s, m.close + 1, n)
    ensures RemoveBefore(s, j, n) == RemoveBefore(s, j, m.start) + RemoveBefore(s, m.close + 1, n)
  {
    RemoveSkipBoth(s, j, m0, m.start, n);
  }

  lemma {:induction false} RemoveSplitCopy(s: string, j: nat, m: Match, n: nat)
    requires j < m.start < m.close < n <= |s| && MatchAt(s, j).None?
    requires RemoveBefore(s, j + 1, n) == RemoveBefore(s, j + 1, m.start) + RemoveBefore(s, m.close + 1, n)
    ensures RemoveBefore(s, j, n) == RemoveBefore(s, j, m.start) + RemoveBefore(s, m.close + 1, n)
  {
    var a := RemoveBefore(s, j + 1, m.start);
    var b := RemoveBefore(s, m.close + 1, n);
    assert [s[j]] + (a + b) == ([s[j]] + a) + b;
  }

  /** A match at j that closes before both bounds is dropped whole from both. */
  lemma {:induction false} RemoveSkipBoth(s: string, j: nat, m0: Match, p: nat, n: nat)
    requires j < |s| && MatchAt(s, j) == Some(m0) && m0.close < p <= n <= |s|
    ensures RemoveBefore(s, j, p) == RemoveBefore(s, m0.close + 1, p)
    ensures RemoveBefore(s, j, n) == RemoveBefore(s, m0.close + 1, n)
  {
  }

  // What `replace` leaves of the text in front of a match.

  /** Nothing matches before the first occurrence, so `replace` keeps that text whole. */
  lemma {:induction false} LeadKept(s: string)
    requires FindAll(s) != []
    ensures RemoveAll(s[..FindAll(s)[0].start]) == s[..FindAll(s)[0].start]
  {
    RemovePrefix(s, FindAll(s)[0].start, 0);
    RemoveBeforeFirst(s, 0);
  }

  /** The text in front of occurrence i + 1 with every occurrence removed is the text in
      front of occurrence i with every occurrence removed, followed by the text between
      occurrences i and i + 1: the text between earlier occurrences is carried along. */
  lemma {:induction false} GapRepeats(s: string, i: nat)
    requires i + 1 < |FindAll(s)|
    ensures var ms := FindAll(s);
      RemoveAll(s[..ms[i + 1].start]) == RemoveAll(s[..ms[i].start]) + s[ms[i].close + 1..ms[i + 1].start]
  {
    var ms := FindAll(s);
    SplitAtOccurrence(s, i);
    GapBetween(s, i);
    PrefixesJoin(s, ms[i].start, ms[i].close, ms[i + 1].start);
  }

  lemma {:induction false} PrefixesJoin(s: string, n1: nat, c1: nat, n2: nat)
    requires n1 <= c1 < n2 <= |s|
    requires RemoveBefore(s, 0, n2) == RemoveBefore(s, 0, n1) + RemoveBefore(s, c1 + 1, n2)
    requires RemoveBefore(s, c1 + 1, n2) == s[c1 + 1..n2]
    ensures RemoveAll(s[..n2]) == RemoveAll(s[..n1]) + s[c1 + 1..n2]
  {
    RemovePrefix(s, n2, 0);
    RemovePrefix(s, n1, 0);
    JoinEquals(RemoveAll(s[..n2]), RemoveBefore(s, 0, n2), RemoveAll(s[..n1]), RemoveBefore(s, 0, n1),
      RemoveBefore(s, c1 + 1, n2), s[c1 + 1..n2]);
  }

  lemma {:induction false} SplitAtOccurrence(s: string, i: nat)
    requires i + 1 < |FindAll(s)|
    ensures var ms := FindAll(s);
      RemoveBefore(s, 0, ms[i + 1].start) == RemoveBefore(s, 0, ms[i].start) + RemoveBefore(s, ms[i].close + 1, ms[i + 1].start)
  {
    var ms := FindFrom(s, 0);
    RemoveSplit(s, 0, i, ms[i], ms[i + 1].start);
  }

  lemma {:induction false} JoinEquals(x: string, x': string, y: string, y': string, z: string, z': string)
    requires x == x' && y == y' && z == z' && x' == y' + z
    ensures x == y + z'
  {
  }

  lemma {:induction false} GapBetween(s: string, i: nat)
    requires i + 1 < |FindAll(s)|
    ensures var ms := FindAll(s);
      RemoveBefore(s, ms[i].close + 1, ms[i + 1].start) == s[ms[i].close + 1..ms[i + 1].start]
  {
    var ms := FindAll(s);
    GapsClear(s, 0);
    assert GapsClearOf(s, ms);
    forall q | ms[i].close + 1 <= q < ms[i + 1].start ensures MatchAt(s, q).None? {
      assert ms[i].close < q < ms[i + 1].start && q <= |s|;
    }
    RemoveCopies(s, ms[i].close + 1, ms[i + 1].start);
  }
}
