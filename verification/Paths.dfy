/** Splitting a path into its components. A C string is the characters before its
    terminating zero, so no character of it is '\0'. */
module Paths {

  type CString = s: string | '\0' !in s

  /** The character at position i; the terminator at the end. */
  function At(s: CString, i: nat): char
    requires i <= |s|
  {
    if i < |s| then s[i] else '\0'
  }

  /** Length of the first run of characters other than d. */
  function RunLength(s: string, d: char): (n: nat)
    ensures n <= |s|
    ensures forall i :: 0 <= i < n ==> s[i] != d
    ensures n < |s| ==> s[n] == d
  {
    if |s| == 0 || s[0] == d then 0 else 1 + RunLength(s[1..], d)
  }

  function Split(s: string, d: char): seq<string>
    decreases |s|
  {
    if |s| == 0 then []
    else if s[0] == d then Split(s[1..], d)
    else
      var n := RunLength(s, d);
      [s[..n]] + Split(s[n..], d)
  }

  function Components(path: string): seq<string> { Split(path, '/') }

  // ---------------------------------------------------------------- the two splitters

  /** VFS::split_path: idx counts along with the moving pointer cur. */
  method SplitPath(path: CString) returns (tokens: seq<string>)
    ensures tokens == Components(path)
  {
    tokens := [];
    var idx, cur := 0, 0;
    while At(path, cur) != '\0'
      invariant cur <= |path| && idx == cur
      invariant tokens + Components(path[cur..]) == Components(path)
      decreases |path| - cur
    {
      var size := 0;
      ghost var start := cur;
      while At(path, cur) != '/' && At(path, cur) != '\0'
        invariant start <= cur <= |path| && size == cur - start
        invariant forall i :: start <= i < cur ==> path[i] != '/'
        decreases |path| - cur
      {
        size := size + 1;
        cur := cur + 1;
      }
      if size > 0 {
        TakeRun(path, start, cur, '/');
        Regroup(tokens, path[start..cur], Components(path[cur..]));
        tokens := tokens + [path[idx..idx + size]];
        idx := idx + (size - 1);
      } else {
        SkipDelimiter(path, cur, '/');
        cur := cur + 1;
      }
      idx := idx + 1;
    }
    assert path[cur..] == [];
  }

  /** Monitor::strsplit: the same walk with the counter moved at other places; it runs one
      ahead of cur only when the string has ended. */
  method StrSplit(path: CString, delim: char) returns (tokens: seq<string>)
    requires delim != '\0'
    ensures tokens == Split(path, delim)
  {
    tokens := [];
    var idx, cur := 0, 0;
    while At(path, cur) != '\0'
      invariant cur <= |path| && (idx == cur || cur == |path|)
      invariant tokens + Split(path[cur..], delim) == Split(path, delim)
      decreases |path| - cur
    {
      var size := 0;
      ghost var start := cur;
      while At(path, cur) != delim && At(path, cur) != '\0'
        invariant start <= cur <= |path| && size == cur - start
        invariant forall i :: start <= i < cur ==> path[i] != delim
        decreases |path| - cur
      {
        size := size + 1;
        cur := cur + 1;
      }
      if size > 0 {
        TakeRun(path, start, cur, delim);
        Regroup(tokens, path[start..cur], Split(path[cur..], delim));
        tokens := tokens + [path[idx..idx + size]];
        idx := idx + size;
      }
      if At(path, cur) != '\0' {
        SkipDelimiter(path, cur, delim);
        cur := cur + 1;
      }
      idx := idx + 1;
    }
    assert path[cur..] == [];
  }

  /** A run that ends at a delimiter or at the end is the first component. */
  lemma FirstRun(s: string, n: nat, d: char)
    requires 0 < n <= |s| && (forall i :: 0 <= i < n ==> s[i] != d) && (n < |s| ==> s[n] == d)
    ensures Split(s, d) == [s[..n]] + Split(s[n..], d)
  {
    assert RunLength(s, d) == n;
  }

  lemma Regroup(a: seq<string>, t: string, b: seq<string>)
    ensures a + [t] + b == a + ([t] + b)
  {
  }

  lemma TakeRun(s: string, i: nat, j: nat, d: char)
    requires i < j <= |s| && (forall k :: i <= k < j ==> s[k] != d) && (j < |s| ==> s[j] == d)
    ensures Split(s[i..], d) == [s[i..j]] + Split(s[j..], d)
  {
    FirstRun(s[i..], j - i, d);
    assert s[i..][..j - i] == s[i..j] && s[i..][j - i..] == s[j..];
  }

  lemma SkipDelimiter(s: string, i: nat, d: char)
    requires i < |s| && s[i] == d
    ensures Split(s[i..], d) == Split(s[i + 1..], d)
  {
    assert s[i..][1..] == s[i + 1..];
  }

  // ---------------------------------------------------------------- what Split means

  /** Position i starts a run. */
  predicate Starts(s: string, i: nat, d: char)
    requires i < |s|
  {
    s[i] != d && (i == 0 || s[i - 1] == d)
  }

  /** Runs that start before position n. */
  function RunsBefore(s: string, n: nat, d: char): nat
    requires n <= |s|
  {
    if n == 0 then 0 else RunsBefore(s, n - 1, d) + if Starts(s, n - 1, d) then 1 else 0
  }

  /** Cutting at a place that is not inside a run keeps the runs. */
  lemma {:induction false} RunsShift(s: string, c: nat, n: nat, d: char)
    requires c + n <= |s| && (c == 0 || c == |s| || s[c - 1] == d || s[c] == d)
    ensures RunsBefore(s, c + n, d) == RunsBefore(s, c, d) + RunsBefore(s[c..], n, d)
    decreases n
  {
    if n > 0 {
      RunsShift(s, c, n - 1, d);
      assert Starts(s, c + n - 1, d) == Starts(s[c..], n - 1, d);
    }
  }

  lemma {:induction false} OneRun(s: string, n: nat, d: char)
    requires 0 < n <= |s| && forall i :: 0 <= i < n ==> s[i] != d
    ensures RunsBefore(s, n, d) == 1
    decreases n
  {
    if n > 1 { OneRun(s, n - 1, d); } else { assert RunsBefore(s, 0, d) == 0; }
  }

  /** What one step of Split does to the runs. */
  lemma SplitStep(s: string, n: nat, i: nat, d: char)
    requires 0 < |s| && n == (if s[0] == d then 1 else RunLength(s, d)) && n <= i <= |s|
    ensures RunsBefore(s, i, d) == (if s[0] == d then 0 else 1) + RunsBefore(s[n..], i - n, d)
    ensures Split(s, d) == (if s[0] == d then [] else [s[..n]]) + Split(s[n..], d)
  {
    RunsShift(s, n, i - n, d);
    if s[0] != d { OneRun(s, n, d); } else { assert RunsBefore(s, 0, d) == 0; }
  }

  lemma {:induction false} SplitCount(s: string, d: char)
    ensures |Split(s, d)| == RunsBefore(s, |s|, d)
    decreases |s|
  {
    if |s| != 0 {
      var n := if s[0] == d then 1 else RunLength(s, d);
      SplitCount(s[n..], d);
      SplitStep(s, n, |s|, d);
    }
  }

  /** run is the maximal run of s at i. */
  predicate RunAt(s: string, i: nat, run: string, d: char) {
    && |run| > 0 && i + |run| <= |s| && s[i..i + |run|] == run
    && d !in run && (i == 0 || s[i - 1] == d) && (i + |run| < |s| ==> s[i + |run|] == d)
  }

  lemma RunInSuffix(s: string, rest: string, n: nat, i: nat, run: string, d: char)
    requires RunAt(s, i, run, d) && n <= i && rest == s[n..]
    ensures RunAt(rest, i - n, run, d)
  {
    assert rest[i - n..i - n + |run|] == s[i..i + |run|];
  }

  lemma IndexConcat(a: seq<string>, b: seq<string>, k: nat)
    requires k < |b|
    ensures (a + b)[|a| + k] == b[k]
  {
  }

  /** Every maximal run is a component, at the position given by the runs before it; there
      are as many components as runs. */
  lemma {:induction false} SplitRuns(s: string, i: nat, run: string, d: char)
    requires RunAt(s, i, run, d)
    ensures |Split(s, d)| == RunsBefore(s, |s|, d)
    ensures RunsBefore(s, i, d) < |Split(s, d)| && Split(s, d)[RunsBefore(s, i, d)] == run
    decreases |s|
  {
    SplitCount(s, d);
    if i == 0 {
      RunFirst(s, run, d);
    } else {
      var n := if s[0] == d then 1 else RunLength(s, d);
      RunAfter(s, n, i, run, d);
      var rest := s[n..];
      RunInSuffix(s, rest, n, i, run, d);
      SplitStep(s, n, i, d);
      SplitRuns(rest, i - n, run, d);
      IndexConcat(if s[0] == d then [] else [s[..n]], Split(rest, d), RunsBefore(rest, i - n, d));
    }
  }

  lemma RunFirst(s: string, run: string, d: char)
    requires RunAt(s, 0, run, d)
    ensures RunsBefore(s, 0, d) == 0 && |Split(s, d)| > 0 && Split(s, d)[0] == run
  {
    assert forall k :: 0 <= k < |run| ==> s[k] == run[k];
    FirstRun(s, |run|, d);
  }

  lemma RunAfter(s: string, n: nat, i: nat, run: string, d: char)
    requires RunAt(s, i, run, d) && 0 < i && n == (if s[0] == d then 1 else RunLength(s, d))
    ensures n <= i
  {
  }

  predicate Name(n: string, d: char) { |n| > 0 && d !in n }

  /** Components are non-empty and free of the delimiter. */
  lemma {:induction false} SplitNames(s: string, d: char)
    ensures forall i :: 0 <= i < |Split(s, d)| ==> Name(Split(s, d)[i], d)
    decreases |s|
  {
    if |s| != 0 {
      if s[0] == d { SplitNames(s[1..], d); } else { SplitNames(s[RunLength(s, d)..], d); }
    }
  }

  /** A string splits where a delimiter begins its second part. */
  lemma {:induction false} SplitConcat(a: string, b: string, d: char)
    requires |b| == 0 || b[0] == d
    ensures Split(a + b, d) == Split(a, d) + Split(b, d)
    decreases |a|
  {
    if |a| == 0 {
      assert a + b == b;
    } else {
      var n := if a[0] == d then 1 else RunLength(a, d);
      assert (a + b)[..n] == a[..n] && (a + b)[n..] == a[n..] + b;
      SplitConcat(a[n..], b, d);
      SplitStep(a, n, |a|, d);
      if a[0] != d { FirstRun(a + b, n, d); }
    }
  }

  lemma SplitName(n: string, d: char)
    requires Name(n, d)
    ensures Split(n, d) == [n] && Split([d] + n, d) == [n]
  {
    FirstRun(n, |n|, d);
    assert n[..|n|] == n && n[|n|..] == [];
    assert ([d] + n)[1..] == n;
  }

  /** An absolute path made of the names. */
  function Join(names: seq<string>, d: char): string {
    if |names| == 0 then "" else [d] + names[0] + Join(names[1..], d)
  }

  /** Splitting inverts joining for every list of names. */
  lemma {:induction false} SplitJoin(names: seq<string>, d: char)
    requires forall i :: 0 <= i < |names| ==> Name(names[i], d)
    ensures Split(Join(names, d), d) == names
    decreases |names|
  {
    if |names| != 0 {
      SplitJoin(names[1..], d);
      SplitName(names[0], d);
      SplitConcat([d] + names[0], Join(names[1..], d), d);
    }
  }

  // ---------------------------------------------------------------- letters

  /** Characters other than the delimiter. */
  function Letters(s: string, d: char): nat {
    if |s| == 0 then 0 else (if s[0] == d then 0 else 1) + Letters(s[1..], d)
  }

  function TotalLength(names: seq<string>): nat {
    if |names| == 0 then 0 else |names[0]| + TotalLength(names[1..])
  }

  lemma {:induction false} LettersConcat(a: string, b: string, d: char)
    ensures Letters(a + b, d) == Letters(a, d) + Letters(b, d)
    decreases |a|
  {
    if |a| == 0 {
      assert a + b == b;
    } else {
      assert (a + b)[1..] == a[1..] + b;
      LettersConcat(a[1..], b, d);
    }
  }

  lemma {:induction false} AllLetters(s: string, d: char)
    requires d !in s
    ensures Letters(s, d) == |s|
    decreases |s|
  {
    if |s| != 0 { AllLetters(s[1..], d); }
  }

  /** Splitting loses delimiters and nothing else. */
  lemma {:induction false} SplitLetters(s: string, d: char)
    ensures TotalLength(Split(s, d)) == Letters(s, d)
    decreases |s|
  {
    if |s| != 0 {
      if s[0] == d {
        SplitLetters(s[1..], d);
      } else {
        var n := RunLength(s, d);
        assert s == s[..n] + s[n..];
        LettersConcat(s[..n], s[n..], d);
        AllLetters(s[..n], d);
        SplitLetters(s[n..], d);
        assert Split(s, d)[1..] == Split(s[n..], d);
      }
    }
  }
}
