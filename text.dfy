/**
 * Character classes and literal scanning over JavaScript strings, as the
 * converter's regular expressions and `String.prototype` calls see them.
 */
module Text {
  import opened Results

  /** JavaScript's `\s` and the set `trim()` strips: WhiteSpace plus LineTerminator. */
  predicate IsSpace(c: char) {
    var n := c as int;
    (9 <= n <= 13) || n == 0x20 || n == 0xA0 || n == 0x1680 || (0x2000 <= n <= 0x200A)
    || n == 0x2028 || n == 0x2029 || n == 0x202F || n == 0x205F || n == 0x3000 || n == 0xFEFF
  }

  /** JavaScript's `\d`: ASCII digits only. */
  predicate IsDigit(c: char) {
    '0' <= c <= '9'
  }

  predicate AllSpaces(s: string) {
    forall i :: 0 <= i < |s| ==> IsSpace(s[i])
  }

  predicate AllDigits(s: string) {
    forall i :: 0 <= i < |s| ==> IsDigit(s[i])
  }

  /**
   * `a` and `b` are the same ASCII letter in different case. For a
   * non-unicode `/i` regex whose pattern text is ASCII this is the only way
   * two different characters match each other.
   */
  predicate OtherCase(a: char, b: char) {
    ('a' <= a <= 'z' && b as int == a as int - 32) || ('A' <= a <= 'Z' && b as int == a as int + 32)
  }

  predicate CharEq(a: char, b: char, ignoreCase: bool) {
    a == b || (ignoreCase && OtherCase(a, b))
  }

  /** `lit` occurs in `s` at position `i` (case-insensitively when `ignoreCase`). */
  predicate LitAt(s: string, i: nat, lit: string, ignoreCase: bool) {
    i + |lit| <= |s| && forall j :: 0 <= j < |lit| ==> CharEq(s[i + j], lit[j], ignoreCase)
  }

  /** Greedy `\s*` from position `i`: the first index at or after `i` that is not whitespace. */
  function SkipSpaces(s: string, i: nat): (r: nat)
    requires i <= |s|
    ensures i <= r <= |s|
    decreases |s| - i
  {
    if i < |s| && IsSpace(s[i]) then SkipSpaces(s, i + 1) else i
  }

  /** `SkipSpaces` passes only whitespace and stops at the end or at a non-space character. */
  lemma {:induction false} SkipSpacesStops(s: string, i: nat)
    requires i <= |s|
    ensures forall j :: i <= j < SkipSpaces(s, i) ==> IsSpace(s[j])
    ensures SkipSpaces(s, i) == |s| || !IsSpace(s[SkipSpaces(s, i)])
    decreases |s| - i
  {
    if i < |s| && IsSpace(s[i]) {
      SkipSpacesStops(s, i + 1);
    }
  }

  /** A greedy run of characters of one class from position `i`: where it stops. */
  function RunEnd(s: string, i: nat, inClass: char -> bool): (r: nat)
    requires i <= |s|
    ensures i <= r <= |s|
    decreases |s| - i
  {
    if i < |s| && inClass(s[i]) then RunEnd(s, i + 1, inClass) else i
  }

  /** The run covers only characters of the class and stops at the end or at one outside it. */
  lemma {:induction false} RunEndStops(s: string, i: nat, inClass: char -> bool)
    requires i <= |s|
    ensures forall j :: i <= j < RunEnd(s, i, inClass) ==> inClass(s[j])
    ensures RunEnd(s, i, inClass) == |s| || !inClass(s[RunEnd(s, i, inClass)])
    decreases |s| - i
  {
    if i < |s| && inClass(s[i]) {
      RunEndStops(s, i + 1, inClass);
    }
  }

  /** A stretch of class characters followed by the end or a character outside the class is one run. */
  lemma {:induction false} RunEndAt(s: string, i: nat, e: nat, inClass: char -> bool)
    requires i <= e <= |s|
    requires forall j :: i <= j < e ==> inClass(s[j])
    requires e == |s| || !inClass(s[e])
    ensures RunEnd(s, i, inClass) == e
    decreases e - i
  {
    if i < e {
      RunEndAt(s, i + 1, e, inClass);
    }
  }

  /** Leading whitespace removed (the left half of `trim()`). */
  function TrimStart(s: string): string {
    s[SkipSpaces(s, 0)..]
  }

  /** Trailing whitespace removed (the right half of `trim()`). */
  function TrimEnd(s: string): (r: string)
    ensures |r| <= |s| && r == s[..|r|]
  {
    if s != [] && IsSpace(s[|s| - 1]) then TrimEnd(s[..|s| - 1]) else s
  }

  /** `TrimEnd` removes only whitespace, and all of the trailing whitespace. */
  lemma {:induction false} TrimEndSound(s: string)
    ensures AllSpaces(s[|TrimEnd(s)|..])
    ensures TrimEnd(s) == [] || !IsSpace(TrimEnd(s)[|TrimEnd(s)| - 1])
  {
    if s != [] && IsSpace(s[|s| - 1]) {
      var u := s[..|s| - 1];
      TrimEndSound(u);
      var n := |TrimEnd(u)|;
      forall j | 0 <= j < |s[n..]| ensures IsSpace(s[n..][j]) {
        if n + j < |u| {
          assert s[n..][j] == u[n..][j];
        }
      }
    }
  }

  /** `String.prototype.trim`. */
  function Trim(s: string): string {
    TrimEnd(TrimStart(s))
  }

  /** `trim()` leaves no whitespace at either end and never lengthens its input. */
  lemma TrimSound(s: string)
    ensures IsTrimmed(Trim(s)) && |Trim(s)| <= |s|
  {
    var i := SkipSpaces(s, 0);
    SkipSpacesStops(s, 0);
    var u := s[i..];
    TrimEndSound(u);
    var r := TrimEnd(u);
    if r != [] {
      assert r[0] == u[0] == s[i];
    }
  }

  predicate IsTrimmed(s: string) {
    s == [] || (!IsSpace(s[0]) && !IsSpace(s[|s| - 1]))
  }

  predicate EndsWith(s: string, suffix: string) {
    |suffix| <= |s| && s[|s| - |suffix|..] == suffix
  }

  /** Trimming text that is whitespace around a core without outer whitespace gives the core. */
  lemma {:induction false} TrimPadded(pad: string, t: string)
    requires AllSpaces(pad)
    requires t != [] && !IsSpace(t[0]) && !IsSpace(t[|t| - 1])
    ensures Trim(pad + t) == t
  {
    var s := pad + t;
    SkipPast(s, 0, |pad|);
    assert s[|pad|..] == t;
    assert TrimEnd(t) == t;
  }

  /** `SkipSpaces` runs over a whitespace stretch and stops at the next non-space character. */
  lemma {:induction false} SkipPast(s: string, i: nat, e: nat)
    requires i <= e <= |s|
    requires forall j :: i <= j < e ==> IsSpace(s[j])
    requires e == |s| || !IsSpace(s[e])
    ensures SkipSpaces(s, i) == e
    decreases e - i
  {
    if i < e {
      SkipPast(s, i + 1, e);
    }
  }

  /**
   * The first position at or after `from` where `lit` occurs: what a lazy
   * `[\s\S]*?` followed by `lit` stops at.
   */
  function FindFrom(s: string, lit: string, from: nat, ignoreCase: bool): (r: Option<nat>)
    ensures r.Some? ==> from <= r.value && r.value + |lit| <= |s|
    decreases |s| - from
  {
    if from + |lit| > |s| then None
    else if LitAt(s, from, lit, ignoreCase) then Some(from)
    else FindFrom(s, lit, from + 1, ignoreCase)
  }

  /** `FindFrom` reports an occurrence with none before it, and reports none only when there is none. */
  lemma {:induction false} FindFromSound(s: string, lit: string, from: nat, ignoreCase: bool)
    ensures var r := FindFrom(s, lit, from, ignoreCase);
      && (r.Some? ==> LitAt(s, r.value, lit, ignoreCase))
      && (r.Some? ==> forall j :: from <= j < r.value ==> !LitAt(s, j, lit, ignoreCase))
      && (r.None? ==> forall j :: from <= j ==> !LitAt(s, j, lit, ignoreCase))
    decreases |s| - from
  {
    if from + |lit| <= |s| && !LitAt(s, from, lit, ignoreCase) {
      FindFromSound(s, lit, from + 1, ignoreCase);
    }
  }

  /** What `FindFrom` reports is an occurrence. */
  lemma FindFromFound(s: string, lit: string, from: nat, ignoreCase: bool, k: nat)
    requires FindFrom(s, lit, from, ignoreCase) == Some(k)
    ensures from <= k && LitAt(s, k, lit, ignoreCase)
  {
    FindFromSound(s, lit, from, ignoreCase);
  }

  /** `FindFrom` stops at an occurrence with none before it. */
  lemma {:induction false} FindFromStopsAt(s: string, lit: string, from: nat, e: nat, ignoreCase: bool)
    requires from <= e && LitAt(s, e, lit, ignoreCase)
    requires forall j :: from <= j < e ==> !LitAt(s, j, lit, ignoreCase)
    ensures FindFrom(s, lit, from, ignoreCase) == Some(e)
    decreases e - from
  {
    if from < e {
      FindFromStopsAt(s, lit, from + 1, e, ignoreCase);
    }
  }

  /** `String.prototype.includes` (case-sensitive). */
  predicate Contains(s: string, lit: string) {
    FindFrom(s, lit, 0, false).Some?
  }

  /** An occurrence of `lit` inside the slice `s[a..b]` is an occurrence in `s`. */
  lemma SliceOccurrence(s: string, a: nat, b: nat, lit: string, k: nat, ignoreCase: bool)
    requires a <= b <= |s|
    requires LitAt(s[a..b], k, lit, ignoreCase)
    ensures LitAt(s, a + k, lit, ignoreCase) && a + k + |lit| <= b
  {
    forall j | 0 <= j < |lit| ensures CharEq(s[a + k + j], lit[j], ignoreCase) {
      assert s[a..b][k + j] == s[a + k + j];
    }
  }

  /** A literal placed between two strings occurs where it was placed. */
  lemma LitAtJoin(a: string, lit: string, b: string, ignoreCase: bool)
    ensures LitAt(a + lit + b, |a|, lit, ignoreCase)
  {
    var s := a + lit + b;
    forall j | 0 <= j < |lit| ensures CharEq(s[|a| + j], lit[j], ignoreCase) {
      assert s[|a| + j] == lit[j];
    }
  }

  /** A string starts with itself, whatever follows it. */
  lemma LitAtStart(lit: string, t: string, ignoreCase: bool)
    ensures LitAt(lit + t, 0, lit, ignoreCase)
  {
    forall j | 0 <= j < |lit| ensures CharEq((lit + t)[j], lit[j], ignoreCase) {
    }
  }

  /** An occurrence stays an occurrence when text is put in front. */
  lemma LitAtShift(a: string, t: string, i: nat, lit: string, ignoreCase: bool)
    requires LitAt(t, i, lit, ignoreCase)
    ensures LitAt(a + t, |a| + i, lit, ignoreCase)
  {
    forall j | 0 <= j < |lit| ensures CharEq((a + t)[|a| + i + j], lit[j], ignoreCase) {
      assert (a + t)[|a| + i + j] == t[i + j];
    }
  }

  /** A literal placed after any prefix occurs right after it. */
  lemma LitAtAfter(pre: string, lit: string, t: string, ignoreCase: bool)
    ensures LitAt(pre + (lit + t), |pre|, lit, ignoreCase)
  {
    LitAtStart(lit, t, ignoreCase);
    LitAtShift(pre, lit + t, 0, lit, ignoreCase);
  }

  lemma ConcatAssoc(a: string, b: string, c: string)
    ensures a + b + c == a + (b + c)
  {
  }

  datatype Found<T> = Found(pos: nat, value: T)

  /**
   * The leftmost position in `from..limit` at which the anchored matcher `at`
   * succeeds: how `RegExp.prototype.exec` and `String.prototype.match` pick
   * their match.
   */
  function Leftmost<T>(at: nat -> Option<T>, from: nat, limit: nat): (r: Option<Found<T>>)
    ensures r.Some? ==> from <= r.value.pos <= limit && at(r.value.pos) == Some(r.value.value)
    decreases limit - from
  {
    if from > limit then None
    else match at(from)
      case Some(v) => Some(Found(from, v))
      case None => Leftmost(at, from + 1, limit)
  }

  /** No match starts between `from` and the one `Leftmost` reports, nor anywhere up to `limit` when it reports none. */
  lemma {:induction false} LeftmostSound<T>(at: nat -> Option<T>, from: nat, limit: nat)
    ensures var r := Leftmost(at, from, limit);
      && (r.Some? ==> forall j: nat :: from <= j < r.value.pos ==> at(j).None?)
      && (r.None? ==> forall j: nat :: from <= j <= limit ==> at(j).None?)
    decreases limit - from
  {
    if from <= limit && at(from).None? {
      LeftmostSound(at, from + 1, limit);
    }
  }

  /**
   * The matches of a global regex's `exec` loop from `lastIndex` `from`:
   * the leftmost match, then the leftmost one at or after where it ended
   * (`end`), and so on. Every match must end after it starts.
   */
  function MatchAll<T>(at: nat -> Option<T>, end: T -> nat, from: nat, limit: nat): (r: seq<Found<T>>)
    requires forall j: nat :: j <= limit && at(j).Some? ==> j < end(at(j).value) <= limit
    decreases limit + 1 - from
  {
    match Leftmost(at, from, limit)
    case None => []
    case Some(f) => [f] + MatchAll(at, end, end(f.value), limit)
  }

  /** Where the `i`th match ends: `from` before the first one. */
  function ResumeAt<T>(r: seq<Found<T>>, end: T -> nat, from: nat, i: nat): nat
    requires i <= |r|
  {
    if i == 0 then from else end(r[i - 1].value)
  }

  /**
   * The exec loop's step: searching again from where the `i`th match ended
   * finds the next one of `MatchAll`, or nothing after the last.
   */
  lemma {:induction false} MatchAllNext<T>(at: nat -> Option<T>, end: T -> nat, from: nat, limit: nat, i: nat)
    requires forall j: nat :: j <= limit && at(j).Some? ==> j < end(at(j).value) <= limit
    requires i <= |MatchAll(at, end, from, limit)|
    ensures var r := MatchAll(at, end, from, limit);
      Leftmost(at, ResumeAt(r, end, from, i), limit) == if i < |r| then Some(r[i]) else None
    decreases i
  {
    var r := MatchAll(at, end, from, limit);
    if i > 0 {
      var f := r[0];
      var rest := MatchAll(at, end, end(f.value), limit);
      assert r == [f] + rest;
      MatchAllNext(at, end, end(f.value), limit, i - 1);
      assert ResumeAt(r, end, from, i) == ResumeAt(rest, end, end(f.value), i - 1);
      if i < |r| {
        assert r[i] == rest[i - 1];
      }
    }
  }

  /**
   * Every match `MatchAll` reports is one, they come in order without
   * overlapping, and none is skipped before the first.
   */
  lemma {:induction false} MatchAllSound<T>(at: nat -> Option<T>, end: T -> nat, from: nat, limit: nat)
    requires forall j: nat :: j <= limit && at(j).Some? ==> j < end(at(j).value) <= limit
    ensures var r := MatchAll(at, end, from, limit);
      && (forall i :: 0 <= i < |r| ==> from <= r[i].pos <= limit && at(r[i].pos) == Some(r[i].value))
      && (forall i :: 0 < i < |r| ==> end(r[i - 1].value) <= r[i].pos)
      && (r == [] ==> forall j: nat :: from <= j <= limit ==> at(j).None?)
      && (r != [] ==> forall j: nat :: from <= j < r[0].pos ==> at(j).None?)
    decreases limit + 1 - from
  {
    LeftmostSound(at, from, limit);
    var r := MatchAll(at, end, from, limit);
    if r != [] {
      var f := r[0];
      var rest := MatchAll(at, end, end(f.value), limit);
      assert r == [f] + rest;
      MatchAllSound(at, end, end(f.value), limit);
      forall i | 0 < i < |r| ensures end(r[i - 1].value) <= r[i].pos {
        if i > 1 {
          assert r[i - 1] == rest[i - 2] && r[i] == rest[i - 1];
        }
      }
    }
  }

  /** Between the `i-1`st and `i`th match of `MatchAll` no match starts. */
  lemma {:induction false} MatchAllGap<T>(at: nat -> Option<T>, end: T -> nat, from: nat, limit: nat, i: nat)
    requires forall j: nat :: j <= limit && at(j).Some? ==> j < end(at(j).value) <= limit
    requires 0 < i < |MatchAll(at, end, from, limit)|
    ensures var r := MatchAll(at, end, from, limit);
      forall j: nat :: end(r[i - 1].value) <= j < r[i].pos ==> at(j).None?
    decreases i
  {
    var r := MatchAll(at, end, from, limit);
    var rest := MatchAll(at, end, end(r[0].value), limit);
    assert r == [r[0]] + rest;
    MatchAllSound(at, end, end(r[0].value), limit);
    if i > 1 {
      MatchAllGap(at, end, end(r[0].value), limit, i - 1);
      assert r[i - 1] == rest[i - 2] && r[i] == rest[i - 1];
    }
  }

  /** After the last match of `MatchAll` no match starts. */
  lemma {:induction false} MatchAllTail<T>(at: nat -> Option<T>, end: T -> nat, from: nat, limit: nat)
    requires forall j: nat :: j <= limit && at(j).Some? ==> j < end(at(j).value) <= limit
    requires MatchAll(at, end, from, limit) != []
    ensures var r := MatchAll(at, end, from, limit);
      forall j: nat :: end(r[|r| - 1].value) <= j <= limit ==> at(j).None?
    decreases limit + 1 - from
  {
    var r := MatchAll(at, end, from, limit);
    var rest := MatchAll(at, end, end(r[0].value), limit);
    assert r == [r[0]] + rest;
    MatchAllSound(at, end, end(r[0].value), limit);
    if rest != [] {
      MatchAllTail(at, end, end(r[0].value), limit);
      assert r[|r| - 1] == rest[|rest| - 1];
    }
  }

  /** `MatchAll` skips no match: none starts before the first one, between two, or after the last. */
  lemma MatchAllComplete<T>(at: nat -> Option<T>, end: T -> nat, from: nat, limit: nat)
    requires forall j: nat :: j <= limit && at(j).Some? ==> j < end(at(j).value) <= limit
    ensures var r := MatchAll(at, end, from, limit);
      && (r == [] ==> forall j: nat :: from <= j <= limit ==> at(j).None?)
      && (r != [] ==> forall j: nat :: from <= j < r[0].pos ==> at(j).None?)
      && (forall i, j: nat :: 0 < i < |r| && end(r[i - 1].value) <= j < r[i].pos ==> at(j).None?)
      && (r != [] ==> forall j: nat :: end(r[|r| - 1].value) <= j <= limit ==> at(j).None?)
  {
    MatchAllSound(at, end, from, limit);
    MatchAllGaps(at, end, from, limit);
    if MatchAll(at, end, from, limit) != [] {
      MatchAllTail(at, end, from, limit);
    }
  }

  /** No match starts between any two consecutive matches of `MatchAll`. */
  lemma MatchAllGaps<T>(at: nat -> Option<T>, end: T -> nat, from: nat, limit: nat)
    requires forall j: nat :: j <= limit && at(j).Some? ==> j < end(at(j).value) <= limit
    ensures var r := MatchAll(at, end, from, limit);
      forall i, j: nat :: 0 < i < |r| && end(r[i - 1].value) <= j < r[i].pos ==> at(j).None?
  {
    var r := MatchAll(at, end, from, limit);
    forall i, j: nat | 0 < i < |r| && end(r[i - 1].value) <= j < r[i].pos ensures at(j).None? {
      MatchAllGap(at, end, from, limit, i);
    }
  }

  /** A matcher that succeeds at the first position searched is the one found. */
  lemma LeftmostAtFrom<T>(at: nat -> Option<T>, from: nat, limit: nat)
    requires from <= limit && at(from).Some?
    ensures Leftmost(at, from, limit) == Some(Found(from, at(from).value))
  {
  }

  /** A matcher that succeeds at `p` and nowhere in `from..p` is found at `p`. */
  lemma {:induction false} LeftmostFirst<T>(at: nat -> Option<T>, from: nat, limit: nat, p: nat)
    requires from <= p <= limit && at(p).Some?
    requires forall j: nat :: from <= j < p ==> at(j).None?
    ensures Leftmost(at, from, limit) == Some(Found(p, at(p).value))
    decreases p - from
  {
    if from < p {
      LeftmostFirst(at, from + 1, limit, p);
    }
  }
}
