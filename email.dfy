/**
 * The email search of the fetcher: `re.search` with the pattern
 * `[a-zA-Z0-9._%+-]+@[a-zA-Z0-9.-]+\.[a-zA-Z]+`, modelled the way a backtracking
 * matcher runs it (starts tried left to right, greedy runs that give back one
 * character at a time) and proved to pick the leftmost, then longest, match.
 */
module Email {
  import opened Wrappers
  import opened Text

  // ------------------------------------------------------- character classes

  predicate IsLetter(c: char) {
    'a' <= c <= 'z' || 'A' <= c <= 'Z'
  }

  predicate IsDigit(c: char) {
    '0' <= c <= '9'
  }

  /** The three character classes of the pattern, in the order they appear. */
  datatype CharClass =
    | LocalPart   // [a-zA-Z0-9._%+-]
    | DomainPart  // [a-zA-Z0-9.-]
    | TopLevel    // [a-zA-Z]

  predicate InClass(c: char, cls: CharClass) {
    match cls
    case LocalPart => IsLetter(c) || IsDigit(c) || c == '.' || c == '_' || c == '%' || c == '+' || c == '-'
    case DomainPart => IsLetter(c) || IsDigit(c) || c == '.' || c == '-'
    case TopLevel => IsLetter(c)
  }

  // ------------------------------------------------------ what a match is

  /**
   * s[a..b] is matched by the pattern, the `@` standing at position at and the
   * escaped `.` at position dot.
   */
  ghost predicate MatchesWith(s: string, a: nat, at: nat, dot: nat, b: nat) {
    && a < at && at + 1 < dot && dot + 1 < b && b <= |s|
    && (forall k :: a <= k < at ==> InClass(s[k], LocalPart))
    && s[at] == '@'
    && (forall k :: at < k < dot ==> InClass(s[k], DomainPart))
    && s[dot] == '.'
    && (forall k :: dot < k < b ==> InClass(s[k], TopLevel))
  }

  /** The whole of s[a..b] is matched by the pattern. */
  ghost predicate Matches(s: string, a: nat, b: nat) {
    exists at: nat, dot: nat :: MatchesWith(s, a, at, dot, b)
  }

  // ------------------------------------------------------ the matcher

  /** End of the longest run of cls characters that starts at i. */
  function RunEnd(s: string, i: nat, cls: CharClass): (e: nat)
    requires i <= |s|
    ensures i <= e <= |s|
    ensures forall k :: i <= k < e ==> InClass(s[k], cls)
    ensures e < |s| ==> !InClass(s[e], cls)
    decreases |s| - i
  {
    if i < |s| && InClass(s[i], cls) then RunEnd(s, i + 1, cls) else i
  }

  /** A `.` at p followed by a letter: where `\.[a-zA-Z]+` can begin. */
  predicate DotAt(s: string, p: nat) {
    p + 1 < |s| && s[p] == '.' && IsLetter(s[p + 1])
  }

  /**
   * The last p in [lo, hi) where `\.[a-zA-Z]` can begin: the position the greedy
   * domain run backs off to, one character at a time, from its end hi.
   */
  function LastDot(s: string, lo: nat, hi: nat): (p: Option<nat>)
    ensures p.Some? ==> lo <= p.value < hi && DotAt(s, p.value)
    ensures p.Some? ==> forall q :: p.value < q < hi ==> !DotAt(s, q)
    ensures p.None? ==> forall q :: lo <= q < hi ==> !DotAt(s, q)
    decreases hi
  {
    if hi <= lo then None
    else if DotAt(s, hi - 1) then Some(hi - 1)
    else LastDot(s, lo, hi - 1)
  }

  /**
   * The end of the match the pattern makes when it is tried at start i, if any.
   * The local run cannot give anything back (`@` is not one of its characters),
   * so it must stop right at an `@`.
   */
  function MatchFrom(s: string, i: nat): (end: Option<nat>)
    requires i <= |s|
    ensures end.Some? ==> i + 5 <= end.value <= |s|
  {
    var at := RunEnd(s, i, LocalPart);
    if at == i || at == |s| || s[at] != '@' then None
    else
      var d := RunEnd(s, at + 1, DomainPart);
      match LastDot(s, at + 2, d)
      case None => None
      case Some(p) => Some(RunEnd(s, p + 1, TopLevel))
  }

  /** The matcher only reports real matches. */
  lemma MatchFromSound(s: string, i: nat)
    requires i <= |s| && MatchFrom(s, i).Some?
    ensures Matches(s, i, MatchFrom(s, i).value)
  {
    var at := RunEnd(s, i, LocalPart);
    var d := RunEnd(s, at + 1, DomainPart);
    var p := LastDot(s, at + 2, d).value;
    assert MatchesWith(s, i, at, p, MatchFrom(s, i).value);
  }

  /** Every match that starts at i is found there, and is no longer than the one reported. */
  lemma MatchFromComplete(s: string, i: nat, b: nat)
    requires i <= |s| && Matches(s, i, b)
    ensures MatchFrom(s, i).Some? && b <= MatchFrom(s, i).value
  {
    var at': nat, dot': nat :| MatchesWith(s, i, at', dot', b);
    assert at' < dot' < b <= |s|;
    var at := RunEnd(s, i, LocalPart);
    assert at == at';
    var d := RunEnd(s, at + 1, DomainPart);
    assert b <= d;
    assert DotAt(s, dot');
    var p := LastDot(s, at + 2, d).value;
    var e := RunEnd(s, p + 1, TopLevel);
    if p != dot' {
      assert !InClass(s[p], TopLevel);
      assert b <= p;
    }
  }

  // ------------------------------------------------------ the search

  /** `re.search` from position i on: the first start at i or later where the pattern matches. */
  function SearchFrom(s: string, i: nat): (span: Option<(nat, nat)>)
    requires i <= |s|
    ensures span.Some? ==> i <= span.value.0 && span.value.0 + 5 <= span.value.1 <= |s|
    decreases |s| - i
  {
    match MatchFrom(s, i)
    case Some(e) => Some((i, e))
    case None => if i == |s| then None else SearchFrom(s, i + 1)
  }

  /** No match starts in [lo, hi). */
  ghost predicate NoMatchBetween(s: string, lo: nat, hi: nat) {
    forall a: nat, b: nat :: lo <= a < hi ==> !Matches(s, a, b)
  }

  /** s[a..e] is a match, and no match starting at a is longer. */
  ghost predicate LongestAt(s: string, a: nat, e: nat) {
    Matches(s, a, e) && forall b: nat :: Matches(s, a, b) ==> b <= e
  }

  /** A match is a non-empty stretch of the text. */
  lemma MatchBounds(s: string, a: nat, b: nat)
    requires Matches(s, a, b)
    ensures a + 5 <= b <= |s|
  {
  }

  /** The search finds the leftmost match, and at that start the longest one. */
  lemma {:induction false} SearchFromLeftmostLongest(s: string, i: nat)
    requires i <= |s|
    ensures SearchFrom(s, i).None? ==> NoMatchBetween(s, i, |s|)
    ensures SearchFrom(s, i).Some? ==>
              && i <= SearchFrom(s, i).value.0
              && NoMatchBetween(s, i, SearchFrom(s, i).value.0)
              && LongestAt(s, SearchFrom(s, i).value.0, SearchFrom(s, i).value.1)
    decreases |s| - i
  {
    match MatchFrom(s, i)
    case Some(e) =>
      MatchFromSound(s, i);
      forall b: nat | Matches(s, i, b)
        ensures b <= e
      {
        MatchFromComplete(s, i, b);
      }
    case None =>
      forall b: nat | Matches(s, i, b)
        ensures false
      {
        MatchFromComplete(s, i, b);
      }
      if i < |s| {
        SearchFromLeftmostLongest(s, i + 1);
      }
  }

  /**
   * `re.search` over the whole of s: None exactly when no part of s matches, and
   * otherwise the match with the leftmost start, and the longest one at that start.
   */
  lemma SearchIsLeftmostLongest(s: string)
    ensures SearchFrom(s, 0).None? <==> forall a: nat, b: nat :: !Matches(s, a, b)
    ensures SearchFrom(s, 0).Some? ==>
              var (a, e) := SearchFrom(s, 0).value;
              && Matches(s, a, e)
              && (forall a': nat, b: nat :: a' < a ==> !Matches(s, a', b))
              && (forall b: nat :: Matches(s, a, b) ==> b <= e)
  {
    SearchFromLeftmostLongest(s, 0);
    forall a: nat, b: nat | Matches(s, a, b)
      ensures a < |s|
    {
      MatchBounds(s, a, b);
    }
  }

  /** A match inside s is a match of the matched text on its own. */
  lemma MatchInSlice(s: string, a: nat, b: nat)
    requires a <= b <= |s| && Matches(s, a, b)
    ensures Matches(s[a..b], 0, b - a)
  {
    var at: nat, dot: nat :| MatchesWith(s, a, at, dot, b);
    assert MatchesWith(s[a..b], 0, at - a, dot - a, b - a);
  }

  /**
   * The shape of an address: one `@`, preceded by a non-empty run of local-part
   * characters, a `.` somewhere after the `@`, and a letter at the end.
   */
  ghost predicate AddressShaped(w: string) {
    exists at :: 0 < at < |w| && w[at] == '@'
      && (forall k :: 0 <= k < |w| && k != at ==> w[k] != '@')
      && (forall k :: 0 <= k < at ==> InClass(w[k], LocalPart))
      && (exists dot :: at < dot < |w| && w[dot] == '.')
      && IsLetter(w[|w| - 1])
  }

  /** Text the pattern matches whole is address-shaped. */
  lemma MatchShape(w: string)
    requires Matches(w, 0, |w|)
    ensures AddressShaped(w)
  {
    var at: nat, dot: nat :| MatchesWith(w, 0, at, dot, |w|);
    assert w[dot] == '.';
    forall k | 0 <= k < |w| && k != at
      ensures w[k] != '@'
    {
      if k < at {
        assert InClass(w[k], LocalPart);
      } else if k < dot {
        assert InClass(w[k], DomainPart);
      } else if k > dot {
        assert InClass(w[k], TopLevel);
      }
    }
  }

  /** `email_match.group()` when `re.search` succeeds, None when it does not. */
  function FindEmail(s: string): (r: Option<string>)
    ensures r.Some? ==> 5 <= |r.value| <= |s|
  {
    match SearchFrom(s, 0)
    case None => None
    case Some((a, e)) => Some(s[a..e])
  }

  /**
   * The search result is None exactly when no part of s matches; otherwise it is a
   * matched stretch of s.
   */
  lemma FindEmailMatches(s: string)
    ensures FindEmail(s).None? <==> forall a: nat, b: nat :: !Matches(s, a, b)
    ensures FindEmail(s).Some? ==>
              exists a: nat, b: nat :: a <= b <= |s| && Matches(s, a, b) && FindEmail(s).value == s[a..b]
  {
    SearchIsLeftmostLongest(s);
    match SearchFrom(s, 0)
    case None =>
    case Some((a, e)) =>
      assert FindEmail(s).value == s[a..e];
  }

  /** The email found is shaped like an address and occurs in s. */
  lemma FoundEmailIsAddress(s: string)
    requires FindEmail(s).Some?
    ensures AddressShaped(FindEmail(s).value) && Contains(s, FindEmail(s).value)
  {
    SearchIsLeftmostLongest(s);
    var (a, e) := SearchFrom(s, 0).value;
    MatchedSliceIsAddress(s, a, e);
  }

  /** A matched stretch of s is shaped like an address and occurs in s. */
  lemma MatchedSliceIsAddress(s: string, a: nat, e: nat)
    requires a <= e <= |s| && Matches(s, a, e)
    ensures AddressShaped(s[a..e]) && Contains(s, s[a..e])
  {
    OccursAtContains(s, s[a..e], a);
    MatchInSlice(s, a, e);
    MatchShape(s[a..e]);
  }
}
