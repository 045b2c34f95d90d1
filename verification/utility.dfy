/**
  The whitespace tokenizer of the string utilities: a string is split into
  "elements", the maximal runs of characters that are not a space, a tab or a
  newline. A string is the text before its NUL terminator, so it holds no NUL.

  `Runs` is the reference definition of those runs (as positions); the methods
  `GetStringElementCount` and `GetStringElement` follow the character-by-character
  scans in src/string/Utility.cc and are proved to agree with it.
*/
module Utility {
  import opened Types

  /** The separator set `" \t\n"` used by every scan in this module. */
  predicate IsSeparator(c: char) {
    c == ' ' || c == '\t' || c == '\n'
  }

  // ---------------------------------------------------------------------------
  //   First non-whitespace
  // ---------------------------------------------------------------------------

  /** `mGetFirstNonWhitespace`: the input with its leading separators skipped. */
  function FirstNonWhitespace(s: seq<char>): (r: seq<char>)
    ensures |r| <= |s| && r == s[|s| - |r|..]
    ensures forall i :: 0 <= i < |s| - |r| ==> IsSeparator(s[i])
    ensures r == [] || !IsSeparator(r[0])
  {
    if s != [] && IsSeparator(s[0]) then FirstNonWhitespace(s[1..]) else s
  }

  // ---------------------------------------------------------------------------
  //   Reference definition of the elements
  // ---------------------------------------------------------------------------

  /** Length of the longest separator-free prefix of `t`. */
  function RunLength(t: seq<char>): (n: nat)
    ensures n <= |t|
    ensures forall i :: 0 <= i < n ==> !IsSeparator(t[i])
    ensures n == |t| || IsSeparator(t[n])
  {
    if t == [] || IsSeparator(t[0]) then 0 else 1 + RunLength(t[1..])
  }

  /** The half-open position range `[start, end)` of one element. */
  datatype Run = Run(start: nat, end: nat)

  /** The runs of `t`, where `t` is the suffix of a string starting at position `base`. */
  function RunsFrom(t: seq<char>, base: nat): (r: seq<Run>)
    ensures forall k :: 0 <= k < |r| ==> base <= r[k].start < r[k].end <= base + |t|
    decreases |t|
  {
    if t == [] then []
    else if IsSeparator(t[0]) then RunsFrom(t[1..], base + 1)
    else
      var n := RunLength(t);
      [Run(base, base + n)] + RunsFrom(t[n..], base + n)
  }

  /** The runs are listed left to right, each ending before the next one starts. */
  ghost predicate Ordered(runs: seq<Run>) {
    forall k, k' :: 0 <= k < k' < |runs| ==> runs[k].end < runs[k'].start
  }

  lemma OrderedCons(x: Run, rest: seq<Run>)
    requires Ordered(rest) && (forall k :: 0 <= k < |rest| ==> rest[k].start < rest[k].end)
    requires rest == [] || x.end < rest[0].start
    ensures Ordered([x] + rest)
  {
    var r := [x] + rest;
    forall k, k' | 0 <= k < k' < |r|
      ensures r[k].end < r[k'].start
    {
      assert r[k'] == rest[k' - 1];
      if k > 0 {
        assert r[k] == rest[k - 1];
      } else if k' > 1 {
        assert rest[0].end < rest[k' - 1].start;
      }
    }
  }

  /** Runs never touch: a separator lies between two of them. */
  lemma {:induction false} RunsFromOrdered(t: seq<char>, base: nat)
    ensures Ordered(RunsFrom(t, base))
    decreases |t|
  {
    if t == [] {
    } else if IsSeparator(t[0]) {
      RunsFromOrdered(t[1..], base + 1);
    } else {
      var n := RunLength(t);
      var rest := RunsFrom(t[n..], base + n);
      RunsFromOrdered(t[n..], base + n);
      if rest != [] {
        assert n < |t| && IsSeparator(t[n]);
        assert t[n..] != [] && IsSeparator(t[n..][0]);
        assert rest == RunsFrom(t[n..][1..], base + n + 1);
      }
      OrderedCons(Run(base, base + n), rest);
    }
  }

  /** The elements of `s`, as position ranges in left-to-right order. */
  function Runs(s: seq<char>): seq<Run> {
    RunsFrom(s, 0)
  }

  /** `[start, end)` is a maximal non-empty run of non-separators of `s`. */
  ghost predicate IsMaximalRun(s: seq<char>, start: int, end: int) {
    && 0 <= start < end <= |s|
    && (start == 0 || IsSeparator(s[start - 1]))
    && (end == |s| || IsSeparator(s[end]))
    && forall i :: start <= i < end ==> !IsSeparator(s[i])
  }

  /** Every run listed in `runs` is a maximal run of `s`. */
  ghost predicate AllMaximal(s: seq<char>, runs: seq<Run>) {
    forall k :: 0 <= k < |runs| ==> IsMaximalRun(s, runs[k].start, runs[k].end)
  }

  /** Position `i` lies inside one of the runs listed in `runs`. */
  ghost predicate Covered(runs: seq<Run>, i: int) {
    exists k :: 0 <= k < |runs| && runs[k].start <= i < runs[k].end
  }

  /** Start of the scan at `base`: `base` is not inside a run. */
  ghost predicate AtRunBoundary(s: seq<char>, base: nat) {
    base <= |s| && (base == 0 || base == |s| || IsSeparator(s[base - 1]) || IsSeparator(s[base]))
  }

  lemma AllMaximalCons(s: seq<char>, x: Run, rest: seq<Run>)
    requires IsMaximalRun(s, x.start, x.end) && AllMaximal(s, rest)
    ensures AllMaximal(s, [x] + rest)
  {
    var r := [x] + rest;
    forall k | 0 <= k < |r|
      ensures IsMaximalRun(s, r[k].start, r[k].end)
    {
      if k > 0 {
        assert r[k] == rest[k - 1];
      }
    }
  }

  /** The first run found by a scan from a run boundary is maximal. */
  lemma FirstRunMaximal(s: seq<char>, base: nat)
    requires AtRunBoundary(s, base) && base < |s| && !IsSeparator(s[base])
    ensures IsMaximalRun(s, base, base + RunLength(s[base..]))
  {
    var t := s[base..];
    var n := RunLength(t);
    forall i | base <= i < base + n
      ensures !IsSeparator(s[i])
    {
      assert s[i] == t[i - base];
    }
    if base + n < |s| {
      assert s[base + n] == t[n];
    }
  }

  /** Unfolds `RunsFrom` at a separator. */
  lemma RunsFromSkip(s: seq<char>, base: nat)
    requires base < |s| && IsSeparator(s[base])
    ensures RunsFrom(s[base..], base) == RunsFrom(s[base + 1..], base + 1)
  {
    assert s[base..][1..] == s[base + 1..];
  }

  /** Unfolds `RunsFrom` at the start of a run. */
  lemma RunsFromTake(s: seq<char>, base: nat)
    requires base < |s| && !IsSeparator(s[base])
    ensures var n := RunLength(s[base..]);
      && (base + n == |s| || IsSeparator(s[base + n]))
      && RunsFrom(s[base..], base) == [Run(base, base + n)] + RunsFrom(s[base + n..], base + n)
  {
    RunEnd(s, base);
    var t := s[base..];
    var n := RunLength(t);
    assert t[0] == s[base];
    RunsFromUnfold(t, base);
    assert t[n..] == s[base + n..];
  }

  /** A run stops at a separator or at the end of the string. */
  lemma RunEnd(s: seq<char>, base: nat)
    requires base <= |s|
    ensures var n := RunLength(s[base..]);
      base + n == |s| || IsSeparator(s[base + n])
  {
    var t := s[base..];
    var n := RunLength(t);
    if base + n < |s| {
      assert s[base + n] == t[n];
    }
  }

  lemma {:induction false} RunsFromAreMaximal(s: seq<char>, base: nat)
    requires AtRunBoundary(s, base)
    ensures AllMaximal(s, RunsFrom(s[base..], base))
    decreases |s| - base
  {
    if base == |s| {
      assert s[base..] == [];
    } else if IsSeparator(s[base]) {
      assert AllMaximal(s, RunsFrom(s[base + 1..], base + 1)) by {
        RunsFromAreMaximal(s, base + 1);
      }
      MaximalAfterSkip(s, base);
    } else {
      var n := RunLength(s[base..]);
      assert AllMaximal(s, RunsFrom(s[base + n..], base + n)) by {
        BoundaryAfterRun(s, base);
        RunsFromAreMaximal(s, base + n);
      }
      MaximalAfterTake(s, base, n);
    }
  }

  /** The scan leaves a run at a run boundary. */
  lemma BoundaryAfterRun(s: seq<char>, base: nat)
    requires base < |s| && !IsSeparator(s[base])
    ensures base + RunLength(s[base..]) <= |s| && AtRunBoundary(s, base + RunLength(s[base..]))
  {
    RunsFromTake(s, base);
  }

  /** One step of `RunsFromAreMaximal` at a separator. */
  lemma MaximalAfterSkip(s: seq<char>, base: nat)
    requires base < |s| && IsSeparator(s[base])
    requires AllMaximal(s, RunsFrom(s[base + 1..], base + 1))
    ensures AllMaximal(s, RunsFrom(s[base..], base))
  {
    RunsFromSkip(s, base);
  }

  /** One step of `RunsFromAreMaximal` at the start of a run. */
  lemma MaximalAfterTake(s: seq<char>, base: nat, n: nat)
    requires AtRunBoundary(s, base) && base < |s| && !IsSeparator(s[base])
    requires n == RunLength(s[base..]) && base + n <= |s|
    requires AllMaximal(s, RunsFrom(s[base + n..], base + n))
    ensures AllMaximal(s, RunsFrom(s[base..], base))
  {
    var rest := RunsFrom(s[base + n..], base + n);
    assert RunsFrom(s[base..], base) == [Run(base, base + n)] + rest by {
      RunsFromTake(s, base);
    }
    assert IsMaximalRun(s, base, base + n) by {
      FirstRunMaximal(s, base);
    }
    AllMaximalCons(s, Run(base, base + n), rest);
  }

  lemma {:induction false} RunsFromCover(s: seq<char>, base: nat, i: nat)
    requires base <= i < |s| && !IsSeparator(s[i])
    ensures Covered(RunsFrom(s[base..], base), i)
    decreases |s| - base
  {
    var t := s[base..];
    var r := RunsFrom(t, base);
    if IsSeparator(t[0]) {
      assert t[1..] == s[base + 1..];
      assert r == RunsFrom(s[base + 1..], base + 1);
      assert i != base;
      RunsFromCover(s, base + 1, i);
    } else {
      var n := RunLength(t);
      assert t[n..] == s[base + n..];
      var rest := RunsFrom(s[base + n..], base + n);
      assert r == [Run(base, base + n)] + rest;
      if i < base + n {
        assert r[0].start <= i < r[0].end;
      } else {
        if i == base + n {
          assert s[i] == t[n];
        }
        RunsFromCover(s, base + n, i);
        assert Covered(rest, i);
        var k' :| 0 <= k' < |rest| && rest[k'].start <= i < rest[k'].end;
        assert r[k' + 1] == rest[k'];
      }
    }
  }

  /**
    `Runs` lists exactly the maximal runs of non-separators, in increasing
    position order: every listed run is maximal, and every non-separator
    character lies in one of them.
  */
  lemma RunsAreMaximalRuns(s: seq<char>)
    ensures forall k :: 0 <= k < |Runs(s)| ==> IsMaximalRun(s, Runs(s)[k].start, Runs(s)[k].end)
    ensures forall k, k' :: 0 <= k < k' < |Runs(s)| ==> Runs(s)[k].end < Runs(s)[k'].start
    ensures forall i :: 0 <= i < |s| && !IsSeparator(s[i]) ==>
      exists k :: 0 <= k < |Runs(s)| && Runs(s)[k].start <= i < Runs(s)[k].end
  {
    assert s[0..] == s;
    assert Runs(s) == RunsFrom(s[0..], 0);
    RunsFromOrdered(s, 0);
    RunsFromAreMaximal(s, 0);
    forall i | 0 <= i < |s| && !IsSeparator(s[i])
      ensures exists k :: 0 <= k < |Runs(s)| && Runs(s)[k].start <= i < Runs(s)[k].end
    {
      RunsFromCover(s, 0, i);
    }
  }

  /** The element text returned in copy mode: the run, plus its terminating
      separator when that separator is the last character of the string. */
  function ElementText(s: seq<char>, r: Run): seq<char>
    requires r.start <= r.end <= |s|
  {
    s[r.start..if r.end + 1 == |s| then |s| else r.end]
  }

  /** Reference result of `mGetStringElement(s, index, copyBuffer)`; `None` is
      the fatal assertion for a missing element (release builds return ""). */
  function Element(s: seq<char>, index: nat, copyBuffer: bool): Option<seq<char>> {
    var runs := Runs(s);
    if index < |runs| then
      if copyBuffer then Some(ElementText(s, runs[index])) else Some(s[runs[index].start..])
    else None
  }

  lemma ElementsAt(s: seq<char>, k: nat)
    requires k < |Runs(s)|
    ensures Elements(s)[k] == ElementText(s, Runs(s)[k])
  {
  }

  /** Every element in copy mode, in order. */
  function Elements(s: seq<char>): (es: seq<seq<char>>)
    ensures |es| == |Runs(s)|
  {
    var runs := Runs(s);
    seq(|runs|, k requires 0 <= k < |runs| => ElementText(s, runs[k]))
  }

  // ---------------------------------------------------------------------------
  //   The scans in src/string/Utility.cc
  // ---------------------------------------------------------------------------

  lemma RunsFromSeparator(s: seq<char>, i: nat)
    requires i < |s| && IsSeparator(s[i])
    ensures RunsFrom(s[i..], i) == RunsFrom(s[i + 1..], i + 1)
  {
    assert s[i..][1..] == s[i + 1..];
  }

  /** `RunLength` is the only length with its two defining properties. */
  lemma RunLengthIs(t: seq<char>, m: nat)
    requires m <= |t|
    requires forall i :: 0 <= i < m ==> !IsSeparator(t[i])
    requires m == |t| || IsSeparator(t[m])
    ensures RunLength(t) == m
  {
  }

  /** A run that starts at `st` and stops at `e` is the next element. */
  lemma RunsFromWord(s: seq<char>, st: nat, e: nat)
    requires st < e <= |s|
    requires forall j :: st <= j < e ==> !IsSeparator(s[j])
    requires e == |s| || IsSeparator(s[e])
    ensures RunsFrom(s[st..], st) == [Run(st, e)] + RunsFrom(s[e..], e)
  {
    assert !IsSeparator(s[st]);
    WordLength(s, st, e);
    RunsFromAt(s, st, e);
  }

  /** The separator-free prefix from `st` ends at `e`. */
  lemma WordLength(s: seq<char>, st: nat, e: nat)
    requires st < e <= |s|
    requires forall j :: st <= j < e ==> !IsSeparator(s[j])
    requires e == |s| || IsSeparator(s[e])
    ensures RunLength(s[st..]) == e - st
  {
    var t := s[st..];
    forall i | 0 <= i < e - st
      ensures !IsSeparator(t[i])
    {
      assert t[i] == s[st + i];
    }
    if e < |s| {
      assert t[e - st] == s[e];
    }
    RunLengthIs(t, e - st);
  }

  /** A string position that starts a run ending at `e` contributes that run first. */
  lemma RunsFromAt(s: seq<char>, st: nat, e: nat)
    requires st < e <= |s| && !IsSeparator(s[st]) && RunLength(s[st..]) == e - st
    ensures RunsFrom(s[st..], st) == [Run(st, e)] + RunsFrom(s[e..], e)
  {
    var t := s[st..];
    assert t[0] == s[st];
    RunsFromUnfold(t, st);
    assert t[e - st..] == s[e..];
  }

  lemma RunsFromUnfold(t: seq<char>, base: nat)
    requires t != [] && !IsSeparator(t[0])
    ensures RunsFrom(t, base) == [Run(base, base + RunLength(t))] + RunsFrom(t[RunLength(t)..], base + RunLength(t))
  {
  }

  /**
    One step of the scans below: when the runs still to be counted are those
    from a run `[st, e)` onwards, that run is the next one, and the rest start
    after the separator that ended it.
  */
  lemma RunsStep(s: seq<char>, w: nat, st: nat, e: nat)
    requires st < e <= |s|
    requires w <= |Runs(s)| && Runs(s)[w..] == RunsFrom(s[st..], st)
    requires forall j :: st <= j < e ==> !IsSeparator(s[j])
    requires e == |s| || IsSeparator(s[e])
    ensures w < |Runs(s)| && Runs(s)[w] == Run(st, e)
    ensures var next := if e == |s| then |s| else e + 1;
      Runs(s)[w + 1..] == RunsFrom(s[next..], next)
  {
    RunsFromWord(s, st, e);
    if e < |s| {
      RunsFromSeparator(s, e);
    }
    assert Runs(s)[w + 1..] == Runs(s)[w..][1..];
  }

  /** Scans one run starting at `st` the way the inner loops do: it stops after
      the first separator (consuming it) or at the end of the string. */
  method ScanRun(s: seq<char>, st: nat) returns (i: nat, e: nat)
    requires st < |s| && !IsSeparator(s[st])
    ensures st < e <= |s|
    ensures forall j :: st <= j < e ==> !IsSeparator(s[j])
    ensures e == |s| || IsSeparator(s[e])
    ensures i == (if e == |s| then |s| else e + 1)
  {
    i := st + 1;
    e := |s|;
    while i < |s|
      invariant st < i <= |s|
      invariant forall j :: st <= j < i ==> !IsSeparator(s[j])
      decreases |s| - i
    {
      var search := s[i];
      i := i + 1;
      if IsSeparator(search) {
        e := i - 1;
        return;
      }
    }
  }

  /** `mGetStringElementCount`: the number of elements of `s`. */
  method GetStringElementCount(s: seq<char>) returns (wordCount: nat)
    ensures wordCount == |Runs(s)|
  {
    if |s| == 0 {
      return 0;
    }
    wordCount := 0;
    var i := 0;
    assert s[0..] == s;
    while i < |s|
      invariant i <= |s|
      invariant wordCount <= |Runs(s)| && Runs(s)[wordCount..] == RunsFrom(s[i..], i)
      decreases |s| - i
    {
      var search := s[i];
      if IsSeparator(search) {
        RunsFromSeparator(s, i);
        i := i + 1;
        continue;
      }
      var st := i;
      var e;
      i, e := ScanRun(s, st);
      RunsStep(s, wordCount, st, e);
      wordCount := wordCount + 1;
    }
    assert s[|s|..] == [];
  }

  /**
    `mGetStringElement(s, index, copyBuffer)`: the `index`-th element. In copy
    mode the text of the element (see `ElementText`); otherwise the rest of the
    string from the element's first character. `None` when there are not that
    many elements.
  */
  method GetStringElement(s: seq<char>, index: nat, copyBuffer: bool) returns (r: Option<seq<char>>)
    ensures r == Element(s, index, copyBuffer)
  {
    var wordCount := 0;
    var i := 0;
    assert s[0..] == s;
    while i < |s|
      invariant i <= |s|
      invariant wordCount <= index
      invariant wordCount <= |Runs(s)| && Runs(s)[wordCount..] == RunsFrom(s[i..], i)
      decreases |s| - i
    {
      var search := s[i];
      if IsSeparator(search) {
        RunsFromSeparator(s, i);
        i := i + 1;
        continue;
      }
      var wordStart := i;
      var found := wordCount == index;
      var e;
      i, e := ScanRun(s, wordStart);
      RunsStep(s, wordCount, wordStart, e);
      if found {
        if !copyBuffer {
          return Some(s[wordStart..]);
        }
        var length := i - wordStart - (if i < |s| then 1 else 0);
        return Some(s[wordStart..wordStart + length]);
      }
      wordCount := wordCount + 1;
    }
    assert s[|s|..] == [];
    return None;
  }
}
