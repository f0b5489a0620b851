/**
  The JavaScript string built-ins the renderers use, on strings of characters:
  `startsWith`, `endsWith`, `slice`, `indexOf`, `includes`, `trim`,
  `split` with a literal separator, and `parseInt` on a string of decimal digits.
*/
module JsText {
  import opened Wrappers

  predicate StartsWith(s: string, t: string) {
    |t| <= |s| && s[..|t|] == t
  }

  predicate EndsWith(s: string, t: string) {
    |t| <= |s| && s[|s| - |t|..] == t
  }

  /** `t` occurs in `s` starting at index `i`. */
  predicate OccursAt(s: string, t: string, i: int) {
    0 <= i && i + |t| <= |s| && s[i..i + |t|] == t
  }

  /** A relative index of `String.prototype.slice`: negative counts from the end, then clamped to [0, len]. */
  function SliceIndex(k: int, len: nat): (r: nat)
    ensures r <= len
    ensures k < 0 && len + k >= 0 ==> r == len + k
    ensures 0 <= k <= len ==> r == k
  {
    if k < 0 then (if len + k < 0 then 0 else len + k)
    else if k > len then len
    else k
  }

  /** `s.slice(start, end)`: empty when the clamped start is not before the clamped end. */
  function Slice(s: string, start: int, end: int): (r: string)
    ensures 0 <= start <= end <= |s| ==> r == s[start..end]
    ensures SliceIndex(start, |s|) >= SliceIndex(end, |s|) ==> r == ""
  {
    var from := SliceIndex(start, |s|);
    var to := SliceIndex(end, |s|);
    if from < to then s[from..to] else ""
  }

  /** `s.indexOf(t, from)`: the first occurrence at or after `from`. */
  function IndexOfFrom(s: string, t: string, from: nat): (r: Option<nat>)
    requires from <= |s|
    ensures r.Some? ==> from <= r.value && OccursAt(s, t, r.value)
    ensures r.Some? ==> forall j :: from <= j < r.value ==> !OccursAt(s, t, j)
    ensures r.None? ==> forall j :: from <= j <= |s| ==> !OccursAt(s, t, j)
    decreases |s| - from
  {
    if OccursAt(s, t, from) then Some(from)
    else if from == |s| then None
    else IndexOfFrom(s, t, from + 1)
  }

  /** `s.includes(t)`. */
  predicate Contains(s: string, t: string) {
    IndexOfFrom(s, t, 0).Some?
  }

  lemma ContainsAt(s: string, t: string, i: int)
    requires OccursAt(s, t, i)
    ensures Contains(s, t)
  {
  }

  /** A string in which the first character of `t` never appears does not contain `t`. */
  lemma NotContainsWithoutFirst(s: string, t: string)
    requires |t| > 0
    requires forall i :: 0 <= i < |s| ==> s[i] != t[0]
    ensures !Contains(s, t)
  {
    forall j | 0 <= j <= |s| ensures !OccursAt(s, t, j) {
      if j + |t| <= |s| { assert s[j..j + |t|][0] == s[j]; }
    }
  }

  /** `content.indexOf('\n')` as the source uses it: -1 when there is none. */
  function IndexOfNewline(s: string): (r: int)
    ensures -1 <= r < |s|
    ensures r >= 0 ==> s[r] == '\n' && forall j :: 0 <= j < r ==> s[j] != '\n'
    ensures r == -1 ==> forall j :: 0 <= j < |s| ==> s[j] != '\n'
  {
    assert forall j :: OccursAt(s, "\n", j) <==> 0 <= j < |s| && s[j] == '\n' by {
      forall j ensures OccursAt(s, "\n", j) <==> 0 <= j < |s| && s[j] == '\n' {
        if 0 <= j < |s| { assert s[j..j + 1] == [s[j]]; }
      }
    }
    match IndexOfFrom(s, "\n", 0)
    case Some(i) => i
    case None => -1
  }

  /** WhiteSpace and LineTerminator of ECMAScript, the characters `String.prototype.trim` removes. */
  predicate IsJsWhite(c: char) {
    c == '\t' || c == '\n' || c == '\U{000B}' || c == '\U{000C}' || c == '\r' || c == ' '
    || c == '\U{00A0}' || c == '\U{1680}' || ('\U{2000}' <= c <= '\U{200A}')
    || c == '\U{2028}' || c == '\U{2029}' || c == '\U{202F}' || c == '\U{205F}'
    || c == '\U{3000}' || c == '\U{FEFF}'
  }

  /** The first index at or after `i` that does not hold white space. */
  function SkipWhite(s: string, i: nat): (j: nat)
    requires i <= |s|
    ensures i <= j <= |s|
    ensures forall k :: i <= k < j ==> IsJsWhite(s[k])
    ensures j < |s| ==> !IsJsWhite(s[j])
    decreases |s| - i
  {
    if i == |s| || !IsJsWhite(s[i]) then i else SkipWhite(s, i + 1)
  }

  /** Going back from `e` but not below `lo`: the index after the last character that is not white space. */
  function SkipWhiteBack(s: string, lo: nat, e: nat): (j: nat)
    requires lo <= e <= |s|
    ensures lo <= j <= e
    ensures forall k :: j <= k < e ==> IsJsWhite(s[k])
    ensures j > lo ==> !IsJsWhite(s[j - 1])
    decreases e
  {
    if e == lo || !IsJsWhite(s[e - 1]) then e else SkipWhiteBack(s, lo, e - 1)
  }

  /** `s.trim()`: the infix of `s` left after removing white space at both ends. */
  function Trim(s: string): (r: string)
    ensures exists i :: OccursAt(s, r, i) && WhiteAround(s, i, i + |r|)
    ensures r != [] ==> !IsJsWhite(r[0]) && !IsJsWhite(r[|r| - 1])
    ensures (forall i :: 0 <= i < |s| ==> !IsJsWhite(s[i])) ==> r == s
  {
    var i := SkipWhite(s, 0);
    var e := SkipWhiteBack(s, i, |s|);
    assert OccursAt(s, s[i..e], i) && WhiteAround(s, i, e);
    s[i..e]
  }

  /** Text that neither begins nor ends with white space is its own trim. */
  lemma TrimOfTrimmed(s: string)
    requires s != [] ==> !IsJsWhite(s[0]) && !IsJsWhite(s[|s| - 1])
    ensures Trim(s) == s
  {
    var r := Trim(s);
    var i :| OccursAt(s, r, i) && WhiteAround(s, i, i + |r|);
    if s != [] {
      if i > 0 { assert false; }
      if i + |r| < |s| { assert false; }
      assert s[0..|s|] == s;
    }
  }

  /** Everything in `s` before index `i` and from index `e` on is white space. */
  predicate WhiteAround(s: string, i: int, e: int) {
    (forall k :: 0 <= k < i && k < |s| ==> IsJsWhite(s[k])) &&
    (forall k :: e <= k < |s| && 0 <= k ==> IsJsWhite(s[k]))
  }

  /** The pieces are joined back with the separator between consecutive ones (`Array.prototype.join`). */
  function JoinWith(parts: seq<string>, sep: string): string
    requires |parts| >= 1
  {
    if |parts| == 1 then parts[0] else parts[0] + sep + JoinWith(parts[1..], sep)
  }

  /**
    Each cut but the last is where the separator first occurs once the part is put
    back in front of it: no occurrence begins inside a part and runs into the separator.
  */
  predicate LeftmostCuts(parts: seq<string>, sep: string) {
    forall k :: 0 <= k < |parts| - 1 ==> IndexOfFrom(parts[k] + sep, sep, 0) == Some(|parts[k]|)
  }

  /** `s.split(sep)` with a non-empty literal separator: cut at each leftmost, non-overlapping occurrence. */
  function SplitOn(s: string, sep: string): (parts: seq<string>)
    requires sep != []
    ensures |parts| >= 1
    ensures JoinWith(parts, sep) == s
    ensures forall i :: 0 <= i < |parts| ==> !Contains(parts[i], sep)
    ensures LeftmostCuts(parts, sep)
    decreases |s|
  {
    match IndexOfFrom(s, sep, 0)
    case None =>
      NoOccurrenceNoContains(s, sep, |s|);
      [s]
    case Some(i) =>
      var rest := SplitOn(s[i + |sep|..], sep);
      SplitStep(s, sep, i, rest);
      [s[..i]] + rest
  }

  /** One cut of `split`: the part before the first occurrence, then the parts of what follows it. */
  lemma SplitStep(s: string, sep: string, i: nat, rest: seq<string>)
    requires sep != [] && i <= |s| && IndexOfFrom(s, sep, 0) == Some(i)
    requires |rest| >= 1 && JoinWith(rest, sep) == s[i + |sep|..]
    requires forall k :: 0 <= k < |rest| ==> !Contains(rest[k], sep)
    requires LeftmostCuts(rest, sep)
    ensures JoinWith([s[..i]] + rest, sep) == s
    ensures forall k :: 0 <= k < |[s[..i]] + rest| ==> !Contains(([s[..i]] + rest)[k], sep)
    ensures LeftmostCuts([s[..i]] + rest, sep)
  {
    JoinStep(s, sep, i, rest);
    NoOccurrenceNoContains(s, sep, i);
    NoneContainsCons(s[..i], rest, sep);
    FirstCutIsLeftmost(s, sep, i);
    LeftmostCutsCons(s[..i], rest, sep);
  }

  /** Proof step of `SplitStep`, kept apart so that the proof stays fast: the parts join back. */
  lemma JoinStep(s: string, sep: string, i: nat, rest: seq<string>)
    requires i + |sep| <= |s| && s[i..i + |sep|] == sep
    requires |rest| >= 1 && JoinWith(rest, sep) == s[i + |sep|..]
    ensures JoinWith([s[..i]] + rest, sep) == s
  {
    var parts := [s[..i]] + rest;
    assert parts[1..] == rest;
    JoinCons(parts, sep);
    Recompose(s, sep, i);
  }

  /** A string is what comes before an occurrence, the occurrence, and what follows it. */
  lemma Recompose(s: string, t: string, i: nat)
    requires i + |t| <= |s| && s[i..i + |t|] == t
    ensures s[..i] + t + s[i + |t|..] == s
  {
    assert s == s[..i] + s[i..i + |t|] + s[i + |t|..];
  }

  /** Proof step, kept apart so that the proofs using it stay fast: `join` peels off its first part. */
  lemma JoinCons(parts: seq<string>, sep: string)
    requires |parts| >= 2
    ensures JoinWith(parts, sep) == parts[0] + sep + JoinWith(parts[1..], sep)
  {
  }

  /** Proof step of `SplitStep`, kept apart so that the proof stays fast: no part holds the separator. */
  lemma NoneContainsCons(head: string, rest: seq<string>, sep: string)
    requires !Contains(head, sep)
    requires forall k :: 0 <= k < |rest| ==> !Contains(rest[k], sep)
    ensures forall k :: 0 <= k < |[head] + rest| ==> !Contains(([head] + rest)[k], sep)
  {
    var parts := [head] + rest;
    forall k | 0 <= k < |parts|
      ensures !Contains(parts[k], sep)
    {
      if k > 0 { assert parts[k] == rest[k - 1]; }
    }
  }

  /** The first occurrence in `s` is also the first in the prefix that ends with it. */
  lemma FirstCutIsLeftmost(s: string, sep: string, i: nat)
    requires i <= |s| && IndexOfFrom(s, sep, 0) == Some(i)
    ensures IndexOfFrom(s[..i] + sep, sep, 0) == Some(i)
  {
    var t := s[..i] + sep;
    assert t == s[..i + |sep|];
    forall j | 0 <= j < i
      ensures !OccursAt(t, sep, j)
    {
      if j + |sep| <= |t| {
        assert t[j..j + |sep|] == s[j..j + |sep|];
        assert !OccursAt(s, sep, j);
      }
    }
    assert t[i..i + |sep|] == sep;
    FirstOccurrence(t, sep, i);
  }

  /** `indexOf` finds exactly the occurrence before which there is none. */
  lemma FirstOccurrence(t: string, sep: string, m: nat)
    requires OccursAt(t, sep, m)
    requires forall j :: 0 <= j < m ==> !OccursAt(t, sep, j)
    ensures IndexOfFrom(t, sep, 0) == Some(m)
  {
  }

  /** Proof step of `SplitStep`, kept apart so that the proof stays fast: the cuts stay leftmost. */
  lemma LeftmostCutsCons(head: string, rest: seq<string>, sep: string)
    requires IndexOfFrom(head + sep, sep, 0) == Some(|head|)
    requires LeftmostCuts(rest, sep)
    ensures LeftmostCuts([head] + rest, sep)
  {
    var parts := [head] + rest;
    forall k | 0 <= k < |parts| - 1
      ensures IndexOfFrom(parts[k] + sep, sep, 0) == Some(|parts[k]|)
    {
      if k > 0 { assert parts[k] == rest[k - 1]; }
    }
  }

  /**
    The parts are determined: any parts that join back to `s`, contain no separator
    and are cut leftmost are the ones `split` returns.
  */
  lemma {:induction false} SplitOnUnique(s: string, sep: string, parts: seq<string>)
    requires sep != [] && |parts| >= 1
    requires JoinWith(parts, sep) == s
    requires forall i :: 0 <= i < |parts| ==> !Contains(parts[i], sep)
    requires LeftmostCuts(parts, sep)
    ensures parts == SplitOn(s, sep)
    decreases |parts|
  {
    if |parts| == 1 {
      assert s == parts[0];
      assert IndexOfFrom(s, sep, 0).None?;
    } else {
      var tail := JoinWith(parts[1..], sep);
      TailCut(parts, sep);
      SplitOnUnique(tail, sep, parts[1..]);
      HeadCut(parts[0], sep, tail);
    }
  }

  /** The parts after the first keep the three properties. */
  lemma TailCut(parts: seq<string>, sep: string)
    requires |parts| >= 2
    requires forall i :: 0 <= i < |parts| ==> !Contains(parts[i], sep)
    requires LeftmostCuts(parts, sep)
    ensures forall i :: 0 <= i < |parts[1..]| ==> !Contains(parts[1..][i], sep)
    ensures LeftmostCuts(parts[1..], sep)
  {
    var t := parts[1..];
    forall k | 0 <= k < |t| - 1
      ensures IndexOfFrom(t[k] + sep, sep, 0) == Some(|t[k]|)
    {
      assert t[k] == parts[k + 1];
    }
    forall k | 0 <= k < |t|
      ensures !Contains(t[k], sep)
    {
      assert t[k] == parts[k + 1];
    }
  }

  /** A head cut leftmost is split off first. */
  lemma HeadCut(head: string, sep: string, tail: string)
    requires sep != []
    requires IndexOfFrom(head + sep, sep, 0) == Some(|head|)
    ensures SplitOn(head + sep + tail, sep) == [head] + SplitOn(tail, sep)
  {
    var s := head + sep + tail;
    LeadingCut(head, sep, tail);
    assert s[..|head|] == head;
    assert s[|head| + |sep|..] == tail;
  }

  /** Where the head is cut leftmost, the first occurrence in the whole string is at the cut. */
  lemma LeadingCut(head: string, sep: string, tail: string)
    requires IndexOfFrom(head + sep, sep, 0) == Some(|head|)
    ensures IndexOfFrom(head + sep + tail, sep, 0) == Some(|head|)
  {
    var s := head + sep + tail;
    var t := head + sep;
    assert s[..|t|] == t;
    forall j | 0 <= j < |head|
      ensures !OccursAt(s, sep, j)
    {
      assert !OccursAt(t, sep, j);
      if j + |sep| <= |s| {
        assert s[j..j + |sep|] == t[j..j + |sep|];
      }
    }
    assert s[|head|..|head| + |sep|] == sep;
    FirstOccurrence(s, sep, |head|);
  }

  /** A prefix `s[..n]` in which no occurrence of `t` begins before `n` does not contain `t`. */
  lemma NoOccurrenceNoContains(s: string, t: string, n: nat)
    requires n <= |s|
    requires forall j :: 0 <= j < n ==> !OccursAt(s, t, j)
    requires t != []
    ensures !Contains(s[..n], t)
  {
    var r := IndexOfFrom(s[..n], t, 0);
    if r.Some? {
      var j := r.value;
      assert s[..n][j..j + |t|] == s[j..j + |t|];
      assert OccursAt(s, t, j);
      assert false;
    }
  }

  /** A slice of a slice is a slice of the original. */
  lemma SliceOfSlice(s: string, a: nat, b: nat, i: nat, e: nat)
    requires a <= b <= |s| && i <= e <= b - a
    ensures s[a..b][i..e] == s[a + i..a + e]
  {
    var t := s[a..b];
    assert |t[i..e]| == e - i;
    assert forall k :: 0 <= k < e - i ==> t[i..e][k] == s[a + i + k];
  }

  predicate IsDigit(c: char) {
    '0' <= c <= '9'
  }

  predicate AllDigits(s: string) {
    forall i :: 0 <= i < |s| ==> IsDigit(s[i])
  }

  function DigitValue(c: char): (d: nat)
    requires IsDigit(c)
    ensures d < 10
  {
    (c as int) - ('0' as int)
  }

  function DigitChar(d: nat): (c: char)
    requires d < 10
    ensures IsDigit(c) && DigitValue(c) == d
  {
    (('0' as int) + d) as char
  }

  /** `parseInt(s)` for a string of decimal digits (exact: the source's double rounding is not modelled). */
  function DigitsValue(s: string): nat
    requires AllDigits(s)
    decreases |s|
  {
    if s == [] then 0 else DigitsValue(s[..|s| - 1]) * 10 + DigitValue(s[|s| - 1])
  }

  /** The decimal numeral of `n`, as a number is shown when rendered: no leading zeros. */
  function DecimalString(n: nat): (r: string)
    ensures |r| >= 1 && AllDigits(r)
    ensures DigitsValue(r) == n
    ensures r[0] == '0' ==> r == "0"
  {
    if n < 10 then [DigitChar(n)]
    else
      var r := DecimalString(n / 10) + [DigitChar(n % 10)];
      assert r[..|r| - 1] == DecimalString(n / 10);
      r
  }

  /** A leading zero does not change the value `parseInt` reads. */
  lemma {:induction false} LeadingZero(d: string)
    requires AllDigits(d)
    ensures AllDigits("0" + d) && DigitsValue("0" + d) == DigitsValue(d)
  {
    var z := "0" + d;
    assert AllDigits(z) by {
      forall i | 0 <= i < |z| ensures IsDigit(z[i]) {
        if i > 0 { assert z[i] == d[i - 1]; }
      }
    }
    if d != [] {
      var d' := d[..|d| - 1];
      assert z[..|z| - 1] == "0" + d';
      LeadingZero(d');
    }
  }

  /** A numeral without leading zeros has a positive value unless it is "0". */
  lemma {:induction false} NoLeadingZeroPositive(d: string)
    requires AllDigits(d) && |d| >= 1 && d[0] != '0'
    ensures DigitsValue(d) >= 1
  {
    if |d| > 1 {
      NoLeadingZeroPositive(d[..|d| - 1]);
    }
  }

  /** Reading a numeral without leading zeros and printing the value gives the numeral back. */
  lemma {:induction false} DecimalOfDigits(d: string)
    requires AllDigits(d) && |d| >= 1 && (d[0] == '0' ==> |d| == 1)
    ensures DecimalString(DigitsValue(d)) == d
  {
    if |d| > 1 {
      var d' := d[..|d| - 1];
      NoLeadingZeroPositive(d');
      DecimalOfDigits(d');
      var v := DigitsValue(d);
      assert v / 10 == DigitsValue(d') && v % 10 == DigitValue(d[|d| - 1]);
      assert DigitChar(DigitValue(d[|d| - 1])) == d[|d| - 1];
      assert d == d' + [d[|d| - 1]];
    } else {
      assert DigitChar(DigitValue(d[0])) == d[0];
    }
  }
}
