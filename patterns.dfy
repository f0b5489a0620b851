/**
  The regular expressions the answer renderers split on, each as a hand-written
  scanner (`MatchAt`) next to a declarative description of the text it matches
  (`IsMatch`), and `String.prototype.split` with a global regular expression that
  has one capture group (`Split`).
*/
module Patterns {
  import opened Wrappers
  import opened JsText

  /** The regular-expression literals of the renderers. */
  datatype Pattern =
    | Marker        // /(\[\d+\])/g      the whole citation marker is captured
    | MarkerDigits  // /\[(\d+)\]/g      only the digits are captured
    | Fence         // /(```[\s\S]*?```)/g
    | Tick          // /(`[^`]+`)/g
    | Bold          // /(\*\*[^*]+\*\*)/g

  predicate FenceAt(s: string, j: int) {
    0 <= j && j + 3 <= |s| && s[j] == '`' && s[j + 1] == '`' && s[j + 2] == '`'
  }

  /** The end of the longest run of digits that starts at `i`. */
  function DigitRunEnd(s: string, i: nat): (k: nat)
    requires i <= |s|
    ensures i <= k <= |s|
    ensures forall j :: i <= j < k ==> IsDigit(s[j])
    ensures k < |s| ==> !IsDigit(s[k])
    decreases |s| - i
  {
    if i < |s| && IsDigit(s[i]) then DigitRunEnd(s, i + 1) else i
  }

  /** The first index at or after `i` that holds `c`. */
  function NextChar(s: string, i: nat, c: char): (r: Option<nat>)
    requires i <= |s|
    ensures r.Some? ==> i <= r.value < |s| && s[r.value] == c
    ensures r.Some? ==> forall j :: i <= j < r.value ==> s[j] != c
    ensures r.None? ==> forall j :: i <= j < |s| ==> s[j] != c
    decreases |s| - i
  {
    if i == |s| then None
    else if s[i] == c then Some(i)
    else NextChar(s, i + 1, c)
  }

  /** The first index at or after `i` where three backticks begin. */
  function NextFence(s: string, i: nat): (r: Option<nat>)
    requires i <= |s|
    ensures r.Some? ==> i <= r.value && FenceAt(s, r.value)
    ensures r.Some? ==> forall j :: i <= j < r.value ==> !FenceAt(s, j)
    ensures r.None? ==> forall j :: i <= j ==> !FenceAt(s, j)
    decreases |s| - i
  {
    if i + 3 > |s| then None
    else if FenceAt(s, i) then Some(i)
    else NextFence(s, i + 1)
  }

  function MinLength(p: Pattern): nat {
    match p
    case Marker | MarkerDigits | Tick => 3
    case Bold => 5
    case Fence => 6
  }

  /**
    Where the match of `p` that starts at index `q` ends, if there is one. Backtracking
    never helps these patterns: `\d+` and `[^`]+` and `[^*]+` stop at the first
    character that the following literal needs, so the greedy run is the only candidate,
    and the lazy `[\s\S]*?` closes at the first three backticks after the opening ones.
  */
  function MatchAt(p: Pattern, s: string, q: nat): (r: Option<nat>)
    ensures r.Some? ==> q + MinLength(p) <= r.value <= |s|
    ensures (p.Marker? || p.MarkerDigits?) && r.Some? ==> AllDigits(s[q + 1..r.value - 1])
  {
    if q >= |s| then None
    else match p
      case Marker | MarkerDigits =>
        var k := DigitRunEnd(s, q + 1);
        if s[q] == '[' && k >= q + 2 && k < |s| && s[k] == ']' then Some(k + 1) else None
      case Tick =>
        if s[q] != '`' then None
        else (match NextChar(s, q + 1, '`')
              case Some(k) => if k >= q + 2 then Some(k + 1) else None
              case None => None)
      case Bold =>
        if q + 1 < |s| && s[q] == '*' && s[q + 1] == '*' then
          (match NextChar(s, q + 2, '*')
           case Some(k) => if k >= q + 3 && k + 1 < |s| && s[k + 1] == '*' then Some(k + 2) else None
           case None => None)
        else None
      case Fence =>
        if !FenceAt(s, q) then None
        else (match NextFence(s, q + 3)
              case Some(j) => Some(j + 3)
              case None => None)
  }

  /** The strings the pattern matches exactly, stated without scanning. */
  predicate IsMatch(p: Pattern, w: string) {
    match p
    case Marker | MarkerDigits =>
      |w| >= 3 && w[0] == '[' && w[|w| - 1] == ']' && AllDigits(w[1..|w| - 1])
    case Tick =>
      |w| >= 3 && w[0] == '`' && w[|w| - 1] == '`' && forall i :: 1 <= i < |w| - 1 ==> w[i] != '`'
    case Bold =>
      |w| >= 5 && w[0] == '*' && w[1] == '*' && w[|w| - 2] == '*' && w[|w| - 1] == '*'
      && forall i :: 2 <= i < |w| - 2 ==> w[i] != '*'
    case Fence =>
      |w| >= 6 && FenceAt(w, 0) && FenceAt(w, |w| - 3)
      && forall j :: 3 <= j < |w| - 3 ==> !FenceAt(w, j)
  }

  /** The scanner finds a match from `q` to `e` exactly when `s[q..e]` is a string the pattern matches. */
  lemma MatchAtIff(p: Pattern, s: string, q: nat, e: nat)
    requires q <= e <= |s|
    ensures MatchAt(p, s, q) == Some(e) <==> IsMatch(p, s[q..e])
  {
    match p
    case Marker => MarkerIff(p, s, q, e);
    case MarkerDigits => MarkerIff(p, s, q, e);
    case Tick => TickIff(s, q, e);
    case Bold => BoldIff(s, q, e);
    case Fence => FenceIff(s, q, e);
  }

  lemma MarkerIff(p: Pattern, s: string, q: nat, e: nat)
    requires p.Marker? || p.MarkerDigits?
    requires q <= e <= |s|
    ensures MatchAt(p, s, q) == Some(e) <==> IsMatch(p, s[q..e])
  {
    if MatchAt(p, s, q) == Some(e) {
      MarkerMatchIsMatch(p, s, q, e);
    }
    if IsMatch(p, s[q..e]) {
      MarkerIsMatchMatches(p, s, q, e);
    }
  }

  /** One direction of `MarkerIff`, kept apart so that the proof stays fast: what the scanner finds matches. */
  lemma MarkerMatchIsMatch(p: Pattern, s: string, q: nat, e: nat)
    requires p.Marker? || p.MarkerDigits?
    requires q <= e <= |s| && MatchAt(p, s, q) == Some(e)
    ensures IsMatch(p, s[q..e])
  {
    var w := s[q..e];
    var k := DigitRunEnd(s, q + 1);
    assert s[q] == '[' && k >= q + 2 && k < |s| && s[k] == ']' && e == k + 1;
    SliceOfSlice(s, q, e, 1, |w| - 1);
    assert w[1..|w| - 1] == s[q + 1..k];
  }

  /** The other direction of `MarkerIff`, kept apart so that the proof stays fast: a match is what the scanner finds. */
  lemma MarkerIsMatchMatches(p: Pattern, s: string, q: nat, e: nat)
    requires p.Marker? || p.MarkerDigits?
    requires q <= e <= |s| && IsMatch(p, s[q..e])
    ensures MatchAt(p, s, q) == Some(e)
  {
    var w := s[q..e];
    assert |w| >= 3 && w[0] == '[' && w[|w| - 1] == ']' && AllDigits(w[1..|w| - 1]);
    var k := DigitRunEnd(s, q + 1);
    SliceOfSlice(s, q, e, 1, |w| - 1);
    var digits := s[q + 1..e - 1];
    assert AllDigits(digits);
    assert forall j :: q + 1 <= j < e - 1 ==> s[j] == digits[j - q - 1];
    assert s[e - 1] == w[|w| - 1];
    assert k == e - 1;
  }

  lemma TickIff(s: string, q: nat, e: nat)
    requires q <= e <= |s|
    ensures MatchAt(Tick, s, q) == Some(e) <==> IsMatch(Tick, s[q..e])
  {
    var w := s[q..e];
    if IsMatch(Tick, w) {
      assert s[q] == w[0];
      assert forall j :: q + 1 <= j < e - 1 ==> s[j] == w[j - q];
      assert s[e - 1] == w[|w| - 1];
      var r := NextChar(s, q + 1, '`');
      assert r == Some(e - 1);
    }
  }

  lemma BoldIff(s: string, q: nat, e: nat)
    requires q <= e <= |s|
    ensures MatchAt(Bold, s, q) == Some(e) <==> IsMatch(Bold, s[q..e])
  {
    var w := s[q..e];
    if IsMatch(Bold, w) {
      assert s[q] == w[0] && s[q + 1] == w[1];
      assert forall j :: q + 2 <= j < e - 2 ==> s[j] == w[j - q];
      assert s[e - 2] == w[|w| - 2] && s[e - 1] == w[|w| - 1];
      var r := NextChar(s, q + 2, '*');
      assert r == Some(e - 2);
    }
  }

  lemma FenceIff(s: string, q: nat, e: nat)
    requires q <= e <= |s|
    ensures MatchAt(Fence, s, q) == Some(e) <==> IsMatch(Fence, s[q..e])
  {
    var w := s[q..e];
    assert forall j :: 0 <= j && j + 3 <= |w| ==> (FenceAt(w, j) <==> FenceAt(s, q + j)) by {
      forall j | 0 <= j && j + 3 <= |w| ensures FenceAt(w, j) <==> FenceAt(s, q + j) {
        assert w[j] == s[q + j] && w[j + 1] == s[q + j + 1] && w[j + 2] == s[q + j + 2];
      }
    }
    if IsMatch(Fence, w) {
      assert FenceAt(s, e - 3);
      assert forall j :: q + 3 <= j < e - 3 ==> !FenceAt(s, j) by {
        forall j | q + 3 <= j < e - 3 ensures !FenceAt(s, j) {
          assert !FenceAt(w, j - q);
        }
      }
      var r := NextFence(s, q + 3);
      assert r == Some(e - 3);
    }
  }

  /** The leftmost match that starts at or after `from`, as (start, end). */
  function FindFrom(p: Pattern, s: string, from: nat): (r: Option<(nat, nat)>)
    requires from <= |s|
    ensures r.Some? ==> from <= r.value.0 && MatchAt(p, s, r.value.0) == Some(r.value.1)
    ensures r.Some? ==> forall i :: from <= i < r.value.0 ==> MatchAt(p, s, i).None?
    ensures r.None? ==> forall i :: from <= i ==> MatchAt(p, s, i).None?
    decreases |s| - from
  {
    if from == |s| then None
    else match MatchAt(p, s, from)
      case Some(e) => Some((from, e))
      case None => FindFrom(p, s, from + 1)
  }

  /** What the capture group keeps of a match. */
  function Capture(p: Pattern, w: string): string {
    if p.MarkerDigits? && |w| >= 2 then w[1..|w| - 1] else w
  }

  /** The match a captured string came from. */
  function Uncapture(p: Pattern, c: string): string {
    if p.MarkerDigits? then "[" + c + "]" else c
  }

  /**
    The ECMAScript `split` algorithm for a regular expression that never matches the
    empty string: from the end of the previous match, find the leftmost match, emit the
    text before it and then its capture, and go on after it; the rest of the string
    is the last piece.
  */
  function SplitFrom(p: Pattern, s: string, from: nat): seq<string>
    requires from <= |s|
    decreases |s| - from
  {
    match FindFrom(p, s, from)
    case None => [s[from..]]
    case Some((a, e)) => [s[from..a], Capture(p, s[a..e])] + SplitFrom(p, s, e)
  }

  /** `s.split(re)`. */
  function Split(p: Pattern, s: string): seq<string> {
    SplitFrom(p, s, 0)
  }

  /** No part of `t` is a string the pattern matches. */
  predicate NoMatchIn(p: Pattern, t: string) {
    forall i, e :: 0 <= i <= e <= |t| ==> !IsMatch(p, t[i..e])
  }

  function Concat(parts: seq<string>): string {
    if parts == [] then "" else parts[0] + Concat(parts[1..])
  }

  /** Gaps and captures put back together, with each capture turned back into its match. */
  function Rejoin(p: Pattern, parts: seq<string>): string
    requires |parts| % 2 == 1
  {
    if |parts| == 1 then parts[0] else parts[0] + Uncapture(p, parts[1]) + Rejoin(p, parts[2..])
  }

  /** Text in which no scan position starts a match holds no match anywhere inside it. */
  lemma GapHasNoMatch(p: Pattern, s: string, from: nat, to: nat)
    requires from <= to <= |s|
    requires forall i :: from <= i < to ==> MatchAt(p, s, i).None?
    ensures NoMatchIn(p, s[from..to])
  {
    forall i: nat, e: nat | i <= e <= to - from ensures !IsMatch(p, s[from..to][i..e]) {
      SliceOfSlice(s, from, to, i, e);
      if IsMatch(p, s[from + i..from + e]) {
        MatchAtIff(p, s, from + i, from + e);
        assert false;
      }
    }
  }

  lemma CaptureRoundTrip(p: Pattern, w: string)
    requires IsMatch(p, w)
    ensures Uncapture(p, Capture(p, w)) == w
    ensures IsMatch(p, Uncapture(p, Capture(p, w)))
  {
    if p.MarkerDigits? {
      assert w == [w[0]] + w[1..|w| - 1] + [w[|w| - 1]];
    }
  }

  lemma CaptureOfMatchAt(p: Pattern, s: string, a: nat, e: nat)
    requires a <= e <= |s| && MatchAt(p, s, a) == Some(e)
    ensures Uncapture(p, Capture(p, s[a..e])) == s[a..e]
  {
    MatchAtIff(p, s, a, e);
    CaptureRoundTrip(p, s[a..e]);
  }

  /** The pieces of a split put back together give the input; there is one more gap than captures. */
  lemma {:induction false} SplitFromRejoin(p: Pattern, s: string, from: nat)
    requires from <= |s|
    ensures |SplitFrom(p, s, from)| % 2 == 1
    ensures Rejoin(p, SplitFrom(p, s, from)) == s[from..]
    decreases |s| - from
  {
    var r := FindFrom(p, s, from);
    if r.Some? {
      var (a, e) := r.value;
      SplitFromRejoin(p, s, e);
      CaptureOfMatchAt(p, s, a, e);
      RejoinStep(p, s, from, a, e, SplitFrom(p, s, e));
    }
  }

  lemma RejoinStep(p: Pattern, s: string, from: nat, a: nat, e: nat, rest: seq<string>)
    requires from <= a <= e <= |s|
    requires Uncapture(p, Capture(p, s[a..e])) == s[a..e]
    requires |rest| % 2 == 1 && Rejoin(p, rest) == s[e..]
    ensures |[s[from..a], Capture(p, s[a..e])] + rest| % 2 == 1
    ensures Rejoin(p, [s[from..a], Capture(p, s[a..e])] + rest) == s[from..]
  {
    var parts := [s[from..a], Capture(p, s[a..e])] + rest;
    FirstTwo(parts);
    ThreeSlices(s, from, a, e);
  }

  /** Proof step of `RejoinStep`, kept apart so that the proof stays fast: a suffix cut in three. */
  lemma ThreeSlices(s: string, from: nat, a: nat, e: nat)
    requires from <= a <= e <= |s|
    ensures s[from..] == s[from..a] + s[a..e] + s[e..]
  {
  }

  /** Every capture of a split comes from a match. */
  lemma {:induction false} SplitFromCaptures(p: Pattern, s: string, from: nat)
    requires from <= |s|
    ensures forall i :: 0 <= i < |SplitFrom(p, s, from)| && i % 2 == 1 ==>
      IsMatch(p, Uncapture(p, SplitFrom(p, s, from)[i]))
    decreases |s| - from
  {
    match FindFrom(p, s, from)
    case None =>
    case Some((a, e)) =>
      var parts := SplitFrom(p, s, from);
      var rest := SplitFrom(p, s, e);
      SplitFromCaptures(p, s, e);
      MatchedCapture(p, s, a, e);
      assert parts == [s[from..a], Capture(p, s[a..e])] + rest;
      CapturesCons(p, s[from..a], Capture(p, s[a..e]), rest);
  }

  /** A gap and a capture of a match, put in front of parts whose odd members are all captures of matches. */
  lemma CapturesCons(p: Pattern, gap: string, cap: string, rest: seq<string>)
    requires IsMatch(p, Uncapture(p, cap))
    requires forall i :: 0 <= i < |rest| && i % 2 == 1 ==> IsMatch(p, Uncapture(p, rest[i]))
    ensures forall i :: 0 <= i < |[gap, cap] + rest| && i % 2 == 1 ==> IsMatch(p, Uncapture(p, ([gap, cap] + rest)[i]))
  {
    var parts := [gap, cap] + rest;
    forall i | 0 <= i < |parts| && i % 2 == 1
      ensures IsMatch(p, Uncapture(p, parts[i]))
    {
      if i >= 2 { assert parts[i] == rest[i - 2]; }
    }
  }

  /** The capture of a match the scanner found turns back into a string the pattern matches. */
  lemma MatchedCapture(p: Pattern, s: string, a: nat, e: nat)
    requires a <= e <= |s| && MatchAt(p, s, a) == Some(e)
    ensures IsMatch(p, Uncapture(p, Capture(p, s[a..e])))
  {
    MatchAtIff(p, s, a, e);
    CaptureRoundTrip(p, s[a..e]);
  }

  /** No gap of a split contains a match. */
  lemma {:induction false} SplitFromGaps(p: Pattern, s: string, from: nat)
    requires from <= |s|
    ensures forall i :: 0 <= i < |SplitFrom(p, s, from)| && i % 2 == 0 ==>
      NoMatchIn(p, SplitFrom(p, s, from)[i])
    decreases |s| - from
  {
    match FindFrom(p, s, from)
    case None =>
      GapHasNoMatch(p, s, from, |s|);
      assert s[from..|s|] == s[from..];
    case Some((a, e)) =>
      var rest := SplitFrom(p, s, e);
      SplitFromGaps(p, s, e);
      GapHasNoMatch(p, s, from, a);
      GapsCons(p, s[from..a], Capture(p, s[a..e]), rest);
  }

  /** Proof step of `SplitFromGaps`, kept apart so that the proof stays fast: a gap without a match and a capture, put in front of parts whose gaps hold no match. */
  lemma GapsCons(p: Pattern, gap: string, cap: string, rest: seq<string>)
    requires NoMatchIn(p, gap)
    requires forall i :: 0 <= i < |rest| && i % 2 == 0 ==> NoMatchIn(p, rest[i])
    ensures forall i :: 0 <= i < |[gap, cap] + rest| && i % 2 == 0 ==> NoMatchIn(p, ([gap, cap] + rest)[i])
  {
    var parts := [gap, cap] + rest;
    forall i | 0 <= i < |parts| && i % 2 == 0
      ensures NoMatchIn(p, parts[i])
    {
      if i >= 2 { assert parts[i] == rest[i - 2]; }
    }
  }

  /** No match of `p` starts in the first `n` characters of `t`, however far it reaches. */
  predicate NoMatchStartsBefore(p: Pattern, t: string, n: nat) {
    forall j, e :: 0 <= j < n && j <= e <= |t| ==> !IsMatch(p, t[j..e])
  }

  /**
    Each gap is cut at the leftmost match: in the text from the start of a gap to the
    end, no match starts inside the gap, so the next match is the one that follows it.
  */
  predicate LeftmostMatches(p: Pattern, parts: seq<string>)
    requires |parts| % 2 == 1
    decreases |parts|
  {
    NoMatchStartsBefore(p, Rejoin(p, parts), |parts[0]|)
    && (|parts| > 1 ==> LeftmostMatches(p, parts[2..]))
  }

  /** Scan positions without a match, seen from the suffix that starts at `from`. */
  lemma NoScanMatchBefore(p: Pattern, s: string, from: nat, n: nat)
    requires from + n <= |s|
    requires forall i :: from <= i < from + n ==> MatchAt(p, s, i).None?
    ensures NoMatchStartsBefore(p, s[from..], n)
  {
    forall j: nat, e: nat | j < n && j <= e <= |s| - from ensures !IsMatch(p, s[from..][j..e]) {
      SuffixSlice(s, from, j, e);
      if IsMatch(p, s[from + j..from + e]) {
        MatchAtIff(p, s, from + j, from + e);
        assert false;
      }
    }
  }

  /** The converse of `NoScanMatchBefore`. */
  lemma ScanFindsNoMatchBefore(p: Pattern, s: string, from: nat, n: nat)
    requires from + n <= |s|
    requires NoMatchStartsBefore(p, s[from..], n)
    ensures forall i :: from <= i < from + n ==> MatchAt(p, s, i).None?
  {
    forall i | from <= i < from + n ensures MatchAt(p, s, i).None? {
      if MatchAt(p, s, i).Some? {
        var e := MatchAt(p, s, i).value;
        SuffixSlice(s, from, i - from, e - from);
        MatchAtIff(p, s, i, e);
        assert false;
      }
    }
  }

  lemma SuffixSlice(s: string, from: nat, j: nat, e: nat)
    requires from <= |s| && j <= e <= |s| - from
    ensures s[from..][j..e] == s[from + j..from + e]
  {
    SliceOfSlice(s, from, |s|, j, e);
    assert s[from..|s|] == s[from..];
  }

  /** Every match a split takes is the leftmost one after the previous match. */
  lemma {:induction false} SplitFromLeftmost(p: Pattern, s: string, from: nat)
    requires from <= |s|
    ensures |SplitFrom(p, s, from)| % 2 == 1
    ensures LeftmostMatches(p, SplitFrom(p, s, from))
    decreases |s| - from
  {
    SplitFromRejoin(p, s, from);
    var parts := SplitFrom(p, s, from);
    match FindFrom(p, s, from)
    case None =>
      NoScanMatchBefore(p, s, from, |s| - from);
    case Some((a, e)) =>
      SplitFromLeftmost(p, s, e);
      NoScanMatchBefore(p, s, from, a - from);
      assert parts[2..] == SplitFrom(p, s, e);
  }

  /** Proof step of `SplitFromUnique`, kept apart so that the proof stays fast: the captures after the first gap and capture still come from matches. */
  lemma CapturesTail(p: Pattern, parts: seq<string>)
    requires |parts| > 1
    requires forall i :: 0 <= i < |parts| && i % 2 == 1 ==> IsMatch(p, Uncapture(p, parts[i]))
    ensures forall i :: 0 <= i < |parts[2..]| && i % 2 == 1 ==> IsMatch(p, Uncapture(p, parts[2..][i]))
  {
    var rest := parts[2..];
    forall i | 0 <= i < |rest| && i % 2 == 1 ensures IsMatch(p, Uncapture(p, rest[i])) {
      assert rest[i] == parts[i + 2];
    }
  }

  /** Capturing the match a capture came from gives that capture back. */
  lemma UncaptureRoundTrip(p: Pattern, c: string)
    ensures Capture(p, Uncapture(p, c)) == c
  {
    if p.MarkerDigits? {
      assert ("[" + c + "]")[1..|c| + 1] == c;
    }
  }

  /** Proof step of `SplitFromUnique`, kept apart so that the proof stays fast: a match with none before it is the one the scanner finds first. */
  lemma {:induction false} FirstMatch(p: Pattern, s: string, from: nat, a: nat, e: nat)
    requires from <= a <= |s|
    requires MatchAt(p, s, a) == Some(e)
    requires forall i :: from <= i < a ==> MatchAt(p, s, i).None?
    ensures FindFrom(p, s, from) == Some((a, e))
    decreases a - from
  {
    if from < a {
      FirstMatch(p, s, from + 1, a, e);
    }
  }

  /** Proof step of `SplitFromUnique`, kept apart so that the proof stays fast: the three pieces of a suffix, as slices. */
  lemma CutThree(s: string, from: nat, x: string, y: string, z: string)
    requires from <= |s| && s[from..] == x + y + z
    ensures from + |x| + |y| <= |s|
    ensures s[from..from + |x|] == x
    ensures s[from + |x|..from + |x| + |y|] == y
    ensures s[from + |x| + |y|..] == z
  {
    assert s[from..][..|x|] == x;
    assert s[from..][|x|..|x| + |y|] == y;
    assert s[from..][|x| + |y|..] == z;
  }

  /** Proof step of `SplitFromUnique`, kept apart so that the proof stays fast: text without a match start has no next match. */
  lemma NoNextMatch(p: Pattern, s: string, from: nat)
    requires from <= |s|
    requires NoMatchStartsBefore(p, s[from..], |s| - from)
    ensures FindFrom(p, s, from).None?
  {
    ScanFindsNoMatchBefore(p, s, from, |s| - from);
    if FindFrom(p, s, from).Some? {
      assert false;
    }
  }

  /** Proof step of `SplitFromUnique`, kept apart so that the proof stays fast: a match with no match start before it, back to `from`, is the next match. */
  lemma NextMatchIs(p: Pattern, s: string, from: nat, a: nat, e: nat)
    requires from <= a <= e <= |s|
    requires IsMatch(p, s[a..e])
    requires NoMatchStartsBefore(p, s[from..], a - from)
    ensures FindFrom(p, s, from) == Some((a, e))
  {
    MatchAtIff(p, s, a, e);
    ScanFindsNoMatchBefore(p, s, from, a - from);
    FirstMatch(p, s, from, a, e);
  }

  /** Proof step of `SplitFromUnique`, kept apart so that the proof stays fast: one step of the split. */
  lemma SplitFromStep(p: Pattern, s: string, from: nat, a: nat, e: nat, gap: string, cap: string)
    requires from <= |s| && FindFrom(p, s, from) == Some((a, e))
    requires from <= a <= e <= |s| && s[from..a] == gap && Capture(p, s[a..e]) == cap
    ensures SplitFrom(p, s, from) == [gap, cap] + SplitFrom(p, s, e)
  {
  }

  /** Proof step of `SplitFromUnique`, kept apart so that the proof stays fast: a single gap cut at the leftmost match is all the split gives. */
  lemma LastGap(p: Pattern, s: string, from: nat, parts: seq<string>)
    requires from <= |s|
    requires |parts| == 1 && Rejoin(p, parts) == s[from..]
    requires LeftmostMatches(p, parts)
    ensures parts == SplitFrom(p, s, from)
  {
    NoNextMatch(p, s, from);
  }

  /** Proof step of `SplitFromUnique`, kept apart so that the proof stays fast: the parts after the first gap and capture are still cut at the leftmost match. */
  lemma LeftmostTail(p: Pattern, parts: seq<string>)
    requires |parts| % 2 == 1 && |parts| > 1
    requires LeftmostMatches(p, parts)
    ensures |parts[2..]| % 2 == 1 && LeftmostMatches(p, parts[2..])
  {
  }

  /** Proof step of `SplitFromUnique`, kept apart so that the proof stays fast: where the first gap and the first match lie in `s`. */
  lemma HeadSlices(p: Pattern, s: string, from: nat, parts: seq<string>) returns (a: nat, e: nat)
    requires from <= |s|
    requires |parts| % 2 == 1 && |parts| > 1 && Rejoin(p, parts) == s[from..]
    ensures from <= a <= e <= |s| && a - from == |parts[0]|
    ensures s[from..a] == parts[0] && s[a..e] == Uncapture(p, parts[1]) && s[e..] == Rejoin(p, parts[2..])
    ensures Capture(p, s[a..e]) == parts[1]
  {
    var m := Uncapture(p, parts[1]);
    CutThree(s, from, parts[0], m, Rejoin(p, parts[2..]));
    a := from + |parts[0]|;
    e := a + |m|;
    UncaptureRoundTrip(p, parts[1]);
  }

  /** Proof step of `SplitFromUnique`, kept apart so that the proof stays fast: the first gap and capture are the first step of the split, which goes on at `e`. */
  lemma HeadMatch(p: Pattern, s: string, from: nat, parts: seq<string>) returns (e: nat)
    requires from <= |s|
    requires |parts| % 2 == 1 && |parts| > 1 && Rejoin(p, parts) == s[from..]
    requires IsMatch(p, Uncapture(p, parts[1]))
    requires NoMatchStartsBefore(p, Rejoin(p, parts), |parts[0]|)
    ensures e <= |s| && s[e..] == Rejoin(p, parts[2..])
    ensures SplitFrom(p, s, from) == [parts[0], parts[1]] + SplitFrom(p, s, e)
  {
    var a;
    a, e := HeadSlices(p, s, from, parts);
    NextMatchIs(p, s, from, a, e);
    SplitFromStep(p, s, from, a, e, parts[0], parts[1]);
  }

  /** Proof step of `SplitFromUnique`, kept apart so that the proof stays fast: a sequence is its first two members followed by the rest. */
  lemma FirstTwo(parts: seq<string>)
    requires |parts| > 1
    ensures parts == [parts[0], parts[1]] + parts[2..]
  {
  }

  /**
    Any parts that rejoin to the text from `from` on, whose captures come from matches and
    whose gaps are cut at the leftmost match, are the split from `from`.
  */
  lemma {:induction false} SplitFromUnique(p: Pattern, s: string, from: nat, parts: seq<string>)
    requires from <= |s|
    requires |parts| % 2 == 1 && Rejoin(p, parts) == s[from..]
    requires forall i :: 0 <= i < |parts| && i % 2 == 1 ==> IsMatch(p, Uncapture(p, parts[i]))
    requires LeftmostMatches(p, parts)
    ensures parts == SplitFrom(p, s, from)
    decreases |parts|
  {
    if |parts| == 1 {
      LastGap(p, s, from, parts);
    } else {
      var e := HeadMatch(p, s, from, parts);
      CapturesTail(p, parts);
      LeftmostTail(p, parts);
      SplitFromUnique(p, s, e, parts[2..]);
      FirstTwo(parts);
    }
  }

  /** `Split` in full: the pieces alternate between gaps and captures, starting and ending with a gap. */
  lemma SplitShape(p: Pattern, s: string)
    ensures |Split(p, s)| % 2 == 1
    ensures Rejoin(p, Split(p, s)) == s
    ensures forall i :: 0 <= i < |Split(p, s)| && i % 2 == 1 ==> IsMatch(p, Uncapture(p, Split(p, s)[i]))
    ensures forall i :: 0 <= i < |Split(p, s)| && i % 2 == 0 ==> NoMatchIn(p, Split(p, s)[i])
    ensures LeftmostMatches(p, Split(p, s))
  {
    SplitFromRejoin(p, s, 0);
    SplitFromCaptures(p, s, 0);
    SplitFromGaps(p, s, 0);
    SplitFromLeftmost(p, s, 0);
  }

  /** The properties of `SplitShape` determine the split: no other parts have them all. */
  lemma SplitUnique(p: Pattern, s: string, parts: seq<string>)
    requires |parts| % 2 == 1 && Rejoin(p, parts) == s
    requires forall i :: 0 <= i < |parts| && i % 2 == 1 ==> IsMatch(p, Uncapture(p, parts[i]))
    requires LeftmostMatches(p, parts)
    ensures parts == Split(p, s)
  {
    SplitFromUnique(p, s, 0, parts);
  }

  /** When the whole match is captured, the pieces concatenate back to the input. */
  lemma {:induction false} RejoinWhole(p: Pattern, parts: seq<string>)
    requires !p.MarkerDigits? && |parts| % 2 == 1
    ensures Rejoin(p, parts) == Concat(parts)
    decreases |parts|
  {
    if |parts| > 1 {
      RejoinWhole(p, parts[2..]);
      assert parts[1..][1..] == parts[2..];
    }
  }

  lemma SplitConcat(p: Pattern, s: string)
    requires !p.MarkerDigits?
    ensures Concat(Split(p, s)) == s
  {
    SplitShape(p, s);
    RejoinWhole(p, Split(p, s));
  }

  /** A string with no match splits into itself alone. */
  lemma SplitWithoutMatch(p: Pattern, s: string)
    requires NoMatchIn(p, s)
    ensures Split(p, s) == [s]
  {
    match FindFrom(p, s, 0)
    case None =>
    case Some((a, e)) =>
      MatchAtIff(p, s, a, e);
      assert false;
  }

  /** A string that is one match splits into an empty gap, its capture and an empty gap. */
  lemma SplitOfMatch(p: Pattern, w: string)
    requires IsMatch(p, w)
    ensures FindFrom(p, w, 0) == Some((0, |w|))
    ensures Split(p, w) == ["", Capture(p, w), ""]
  {
    assert w[0..|w|] == w;
    MatchAtIff(p, w, 0, |w|);
    assert FindFrom(p, w, |w|) == None;
    assert w[|w|..] == [];
    assert SplitFrom(p, w, |w|) == [""];
  }

  /** The character every match begins with. */
  function Opener(p: Pattern): char {
    match p
    case Marker | MarkerDigits => '['
    case Tick | Fence => '`'
    case Bold => '*'
  }

  /** Text that lacks the opening character holds no match. */
  lemma NoOpenerNoMatch(p: Pattern, t: string)
    requires forall i :: 0 <= i < |t| ==> t[i] != Opener(p)
    ensures NoMatchIn(p, t)
  {
    forall i, e | 0 <= i <= e <= |t| ensures !IsMatch(p, t[i..e]) {
      if e > i { assert t[i..e][0] == t[i]; }
    }
  }

  /** Every character of `s` is `c`. */
  predicate Only(c: char, s: string) {
    forall i :: 0 <= i < |s| ==> s[i] == c
  }

  /** The last index before `i` that holds `c`. */
  function PrevChar(s: string, i: nat, c: char): (r: Option<nat>)
    requires i <= |s|
    ensures r.Some? ==> r.value < i && s[r.value] == c
    ensures r.Some? ==> forall j :: r.value < j < i ==> s[j] != c
    ensures r.None? ==> forall j :: 0 <= j < i ==> s[j] != c
  {
    if i == 0 then None
    else if s[i - 1] == c then Some(i - 1)
    else PrevChar(s, i - 1, c)
  }

  /**
    A gap of the inline-code split that begins and ends with a backtick is a run of
    backticks only: any other character would sit between two backticks that match.
  */
  lemma TickGapAllTicks(g: string)
    requires NoMatchIn(Tick, g)
    requires |g| >= 1 && g[0] == '`' && g[|g| - 1] == '`'
    ensures Only('`', g)
  {
    if !Only('`', g) {
      var m :| 0 <= m < |g| && g[m] != '`';
      var a, e := TickAround(g, m);
      assert false;
    }
  }

  /** A character other than a backtick, inside a piece that begins and ends with one, lies within an inline-code match. */
  lemma TickAround(g: string, m: nat) returns (a: nat, e: nat)
    requires |g| >= 1 && g[0] == '`' && g[|g| - 1] == '`'
    requires m < |g| && g[m] != '`'
    ensures a <= e <= |g| && IsMatch(Tick, g[a..e])
  {
    a := PrevChar(g, m, '`').value;
    var b := NextChar(g, m, '`').value;
    e := b + 1;
    var w := g[a..e];
    assert forall i :: 1 <= i < |w| - 1 ==> w[i] == g[a + i];
  }

  /**
    A gap of the fenced-block split that begins and ends with three backticks is a run
    of three to five backticks: from six characters on, the two fences would match.
  */
  lemma FenceGapStray(g: string)
    requires NoMatchIn(Fence, g)
    requires StartsWith(g, "```") && EndsWith(g, "```")
    ensures 3 <= |g| <= 5 && Only('`', g)
  {
    assert g[..3][0] == g[0] && g[..3][1] == g[1] && g[..3][2] == g[2];
    assert FenceAt(g, 0);
    var t := |g| - 3;
    assert g[t..][0] == g[t] && g[t..][1] == g[t + 1] && g[t..][2] == g[t + 2];
    assert FenceAt(g, t);
    if |g| >= 6 {
      var j := NextFence(g, 3).value;
      assert MatchAt(Fence, g, 0) == Some(j + 3);
      MatchAtIff(Fence, g, 0, j + 3);
      assert false;
    }
  }

  /** A text without the opening character is not split. */
  lemma SplitPlain(p: Pattern, t: string)
    requires forall i :: 0 <= i < |t| ==> t[i] != Opener(p)
    ensures Split(p, t) == [t]
  {
    NoOpenerNoMatch(p, t);
    SplitWithoutMatch(p, t);
  }
}
