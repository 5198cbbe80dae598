/**
 * The Python string operations the fetcher relies on: `str.lower()` (ASCII part),
 * the `in` substring test, `str.strip()` and `str.join`.
 */
module Text {
  import opened Wrappers

  // ---------------------------------------------------------------- lowering

  predicate IsUpper(c: char) {
    'A' <= c <= 'Z'
  }

  /** `str.lower()` on one character, for the ASCII range. */
  function LowerChar(c: char): (d: char)
    ensures !IsUpper(d)
    ensures IsUpper(c) ==> d as int == c as int + 32
    ensures !IsUpper(c) ==> d == c
  {
    if IsUpper(c) then (c as int + 32) as char else c
  }

  /** `str.lower()`: every ASCII capital becomes its small letter, every other character stays. */
  function Lower(s: string): (r: string)
    ensures |r| == |s|
    ensures forall i :: 0 <= i < |s| ==> r[i] == LowerChar(s[i])
  {
    seq(|s|, i requires 0 <= i < |s| => LowerChar(s[i]))
  }

  /** Lowering twice is lowering once. */
  lemma LowerIdempotent(s: string)
    ensures Lower(Lower(s)) == Lower(s)
  {
    var once := Lower(s);
    assert forall i :: 0 <= i < |once| ==> LowerChar(once[i]) == once[i];
  }

  // -------------------------------------------------------------- substrings

  /** `needle in haystack`: needle is a prefix of haystack or of one of its suffixes. */
  predicate Contains(haystack: string, needle: string)
    decreases |haystack|
  {
    needle <= haystack || (|haystack| > 0 && Contains(haystack[1..], needle))
  }

  /** needle occurs in haystack starting at position i. */
  predicate OccursAt(haystack: string, needle: string, i: nat) {
    i + |needle| <= |haystack| && haystack[i..i + |needle|] == needle
  }

  /** An occurrence at any position is found by the scan. */
  lemma {:induction false} OccursAtContains(haystack: string, needle: string, i: nat)
    requires OccursAt(haystack, needle, i)
    ensures Contains(haystack, needle)
    decreases i
  {
    if i == 0 {
      assert needle <= haystack;
    } else {
      assert haystack[1..][i - 1..i - 1 + |needle|] == haystack[i..i + |needle|];
      OccursAtContains(haystack[1..], needle, i - 1);
    }
  }

  /** The scan only succeeds at a real occurrence, whose position it yields. */
  lemma {:induction false} ContainsWitness(haystack: string, needle: string) returns (i: nat)
    requires Contains(haystack, needle)
    ensures OccursAt(haystack, needle, i)
    decreases |haystack|
  {
    if needle <= haystack {
      i := 0;
    } else {
      var j := ContainsWitness(haystack[1..], needle);
      assert haystack[1..][j..j + |needle|] == haystack[j + 1..j + 1 + |needle|];
      i := j + 1;
    }
  }

  /** `in` is the textbook substring relation, in both directions. */
  lemma ContainsIffOccurs(haystack: string, needle: string)
    ensures Contains(haystack, needle) <==> exists i: nat :: OccursAt(haystack, needle, i)
  {
    if Contains(haystack, needle) {
      var i := ContainsWitness(haystack, needle);
    }
    forall i: nat | OccursAt(haystack, needle, i)
      ensures Contains(haystack, needle)
    {
      OccursAtContains(haystack, needle, i);
    }
  }

  /** A substring of a substring is a substring. */
  lemma ContainsTransitive(text: string, middle: string, needle: string)
    requires Contains(text, middle) && Contains(middle, needle)
    ensures Contains(text, needle)
  {
    var i := ContainsWitness(text, middle);
    var j := ContainsWitness(middle, needle);
    assert middle == text[i..i + |middle|];
    forall k | 0 <= k < |needle|
      ensures text[i + j + k] == needle[k]
    {
      assert needle[k] == middle[j + k];
    }
    assert text[i + j..i + j + |needle|] == needle;
    OccursAtContains(text, needle, i + j);
  }

  // --------------------------------------------------------------- stripping

  /** The characters `str.isspace()` accepts, which `str.strip()` removes. */
  predicate IsSpace(c: char) {
    || '\U{9}' <= c <= '\U{D}'
    || '\U{1C}' <= c <= '\U{20}'
    || c == '\U{85}' || c == '\U{A0}' || c == '\U{1680}'
    || '\U{2000}' <= c <= '\U{200A}'
    || c == '\U{2028}' || c == '\U{2029}' || c == '\U{202F}' || c == '\U{205F}' || c == '\U{3000}'
  }

  /** Number of whitespace characters at the front of s. */
  function LeadingSpaces(s: string): (n: nat)
    ensures n <= |s|
    ensures forall k :: 0 <= k < n ==> IsSpace(s[k])
    ensures n < |s| ==> !IsSpace(s[n])
  {
    if |s| > 0 && IsSpace(s[0]) then 1 + LeadingSpaces(s[1..]) else 0
  }

  /** Length of s once its trailing whitespace is cut off. */
  function TrailingStart(s: string): (n: nat)
    ensures n <= |s|
    ensures forall k :: n <= k < |s| ==> IsSpace(s[k])
    ensures 0 < n ==> !IsSpace(s[n - 1])
  {
    if |s| > 0 && IsSpace(s[|s| - 1]) then TrailingStart(s[..|s| - 1]) else |s|
  }

  /**
   * `str.strip()`: the part of s between its leading and its trailing whitespace.
   * The result is a slice of s with only whitespace cut on either side, and it
   * neither starts nor ends with whitespace.
   */
  function Strip(s: string): (r: string)
    ensures |r| <= |s|
    ensures r == [] || (!IsSpace(r[0]) && !IsSpace(r[|r| - 1]))
    ensures exists i, j :: 0 <= i <= j <= |s| && r == s[i..j]
              && (forall k :: 0 <= k < i ==> IsSpace(s[k]))
              && (forall k :: j <= k < |s| ==> IsSpace(s[k]))
  {
    var i := LeadingSpaces(s);
    var rest := s[i..];
    var r := rest[..TrailingStart(rest)];
    assert r == s[i..i + |r|];
    r
  }

  /** Text that has no surrounding whitespace is left as it is. */
  lemma StripUnchanged(s: string)
    requires s == [] || (!IsSpace(s[0]) && !IsSpace(s[|s| - 1]))
    ensures Strip(s) == s
  {
    if s != [] {
      assert LeadingSpaces(s) == 0;
      assert s[0..] == s;
    }
  }

  /** Text made of whitespace only strips to the empty string. */
  lemma StripAllSpace(s: string)
    requires forall k :: 0 <= k < |s| ==> IsSpace(s[k])
    ensures Strip(s) == ""
  {
    assert LeadingSpaces(s) == |s|;
  }

  // ----------------------------------------------------------------- joining

  /** `sep.join(xs)`: the elements in order with sep between neighbours. */
  function Join(sep: string, xs: seq<string>): (r: string)
  {
    if |xs| == 0 then "" else if |xs| == 1 then xs[0] else xs[0] + sep + Join(sep, xs[1..])
  }

  /** Every element appears verbatim in the joined text. */
  lemma {:induction false} JoinContainsElement(sep: string, xs: seq<string>, k: nat)
    requires k < |xs|
    ensures Contains(Join(sep, xs), xs[k])
    decreases k
  {
    var joined := Join(sep, xs);
    if |xs| == 1 {
      OccursAtContains(joined, xs[0], 0);
    } else if k == 0 {
      assert joined[..|xs[0]|] == xs[0];
      OccursAtContains(joined, xs[0], 0);
    } else {
      var tail := Join(sep, xs[1..]);
      JoinContainsElement(sep, xs[1..], k - 1);
      var at := |xs[0]| + |sep|;
      assert joined[at..at + |tail|] == tail;
      OccursAtContains(joined, tail, at);
      ContainsTransitive(joined, tail, xs[k]);
    }
  }

  /** The `"; "` separator begins at position p of s. */
  predicate SeparatorAt(s: string, p: nat) {
    p + 1 < |s| && s[p] == ';' && s[p + 1] == ' '
  }

  /** The first `"; "` at or after position from, if any. */
  function FindSeparator(s: string, from: nat): (p: Option<nat>)
    ensures p.Some? ==> from <= p.value && SeparatorAt(s, p.value)
    ensures p.Some? ==> forall q :: from <= q < p.value ==> !SeparatorAt(s, q)
    ensures p.None? ==> forall q :: from <= q ==> !SeparatorAt(s, q)
    decreases |s| - from
  {
    if from + 1 >= |s| then None
    else if SeparatorAt(s, from) then Some(from)
    else FindSeparator(s, from + 1)
  }

  /** Cuts s at every `"; "`: how a reader of the report takes a joined field apart. */
  function SplitFields(s: string): (r: seq<string>)
    ensures |r| > 0
    decreases |s|
  {
    match FindSeparator(s, 0)
    case None => [s]
    case Some(p) => [s[..p]] + SplitFields(s[p + 2..])
  }

  lemma NoSeparatorFound(x: string)
    requires !Contains(x, "; ")
    ensures FindSeparator(x, 0).None?
  {
    match FindSeparator(x, 0)
    case None =>
    case Some(p) =>
      assert x[p..p + 2] == "; ";
      OccursAtContains(x, "; ", p);
  }

  /**
   * Joining with `"; "` loses nothing as long as no element itself contains `"; "`:
   * splitting the joined text gives back the elements.
   */
  lemma {:induction false} SplitJoin(xs: seq<string>)
    requires |xs| > 0
    requires forall k :: 0 <= k < |xs| ==> !Contains(xs[k], "; ")
    ensures SplitFields(Join("; ", xs)) == xs
    decreases |xs|
  {
    if |xs| == 1 {
      NoSeparatorFound(xs[0]);
    } else {
      var head, tail := xs[0], Join("; ", xs[1..]);
      var s := head + "; " + tail;
      assert s == Join("; ", xs);
      forall q | 0 <= q < |head|
        ensures !SeparatorAt(s, q)
      {
        if SeparatorAt(s, q) && q + 1 < |head| {
          assert head[q..q + 2] == "; ";
          OccursAtContains(head, "; ", q);
        }
      }
      assert SeparatorAt(s, |head|);
      assert FindSeparator(s, 0) == Some(|head|);
      assert s[..|head|] == head;
      assert s[|head| + 2..] == tail;
      SplitJoin(xs[1..]);
    }
  }
}
