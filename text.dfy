/**
 * The few string operations of Python's `str` that the pipeline relies on:
 * `strip` with one character, `"\n".join`, and a split at the first
 * occurrence of a character (used by the KML reader).
 */
module Text {

  import opened Wrappers

  predicate StartsWith(s: string, prefix: string) {
    |prefix| <= |s| && s[..|prefix|] == prefix
  }

  predicate EndsWith(s: string, suffix: string) {
    |suffix| <= |s| && s[|s| - |suffix|..] == suffix
  }

  /** `s.lstrip(c)`: drops every leading `c`. */
  function TrimStart(s: string, c: char): (r: string)
    ensures |r| <= |s|
    ensures r == [] || r[0] != c
  {
    if s != [] && s[0] == c then TrimStart(s[1..], c) else s
  }

  /** `s.rstrip(c)`: drops every trailing `c`. */
  function TrimEnd(s: string, c: char): (r: string)
    ensures |r| <= |s|
    ensures r == [] || r[|r| - 1] != c
    ensures r != [] ==> r[0] == s[0]
  {
    if s != [] && s[|s| - 1] == c then TrimEnd(s[..|s| - 1], c) else s
  }

  /** What `lstrip` drops is a run of `c` at the front. */
  lemma {:induction false} TrimStartDropsRun(s: string, c: char)
    ensures TrimStart(s, c) == s[|s| - |TrimStart(s, c)|..]
    ensures forall k :: 0 <= k < |s| - |TrimStart(s, c)| ==> s[k] == c
  {
    if s != [] && s[0] == c {
      TrimStartDropsRun(s[1..], c);
      var r := TrimStart(s, c);
      assert r == TrimStart(s[1..], c);
      assert s[1..][|s| - 1 - |r|..] == s[|s| - |r|..];
      forall k | 0 <= k < |s| - |r| ensures s[k] == c {
        if k > 0 { assert s[k] == s[1..][k - 1]; }
      }
    }
  }

  /** What `rstrip` drops is a run of `c` at the back. */
  lemma {:induction false} TrimEndDropsRun(s: string, c: char)
    ensures TrimEnd(s, c) == s[..|TrimEnd(s, c)|]
    ensures forall k :: |TrimEnd(s, c)| <= k < |s| ==> s[k] == c
  {
    if s != [] && s[|s| - 1] == c {
      var u := s[..|s| - 1];
      TrimEndDropsRun(u, c);
      var r := TrimEnd(s, c);
      assert r == TrimEnd(u, c);
      assert u[..|r|] == s[..|r|];
      forall k | |r| <= k < |s| ensures s[k] == c {
        if k < |s| - 1 { assert s[k] == u[k]; }
      }
    }
  }

  /** `s.strip(c)`: drops every leading and every trailing `c`, not just one layer. */
  function Strip(s: string, c: char): (r: string)
    ensures |r| <= |s|
    ensures r == [] || (r[0] != c && r[|r| - 1] != c)
  {
    TrimEnd(TrimStart(s, c), c)
  }

  lemma {:induction false} TrimStartStopsAt(s: string, c: char, i: nat)
    requires i <= |s|
    requires forall k :: 0 <= k < i ==> s[k] == c
    requires i == |s| || s[i] != c
    ensures TrimStart(s, c) == s[i..]
    decreases i
  {
    if i > 0 {
      TrimStartStopsAt(s[1..], c, i - 1);
      assert s[1..][i - 1..] == s[i..];
    }
  }

  lemma {:induction false} TrimEndStopsAt(s: string, c: char, j: nat)
    requires j <= |s|
    requires forall k :: j <= k < |s| ==> s[k] == c
    requires j == 0 || s[j - 1] != c
    ensures TrimEnd(s, c) == s[..j]
    decreases |s| - j
  {
    if j < |s| {
      TrimEndStopsAt(s[..|s| - 1], c, j);
      assert s[..|s| - 1][..j] == s[..j];
    }
  }

  /**
   * Strip removes exactly the maximal runs of `c` at both ends: whenever
   * `s` splits as a run of `c`, a middle that neither starts nor ends with
   * `c`, and a run of `c`, the result is that middle.
   */
  lemma {:induction false} StripIsMiddle(s: string, c: char, i: nat, j: nat)
    requires i <= j <= |s|
    requires forall k :: 0 <= k < i ==> s[k] == c
    requires forall k :: j <= k < |s| ==> s[k] == c
    requires i == j || (s[i] != c && s[j - 1] != c)
    ensures Strip(s, c) == s[i..j]
  {
    if i == j {
      StripAllOf(s, c, i);
    } else {
      StripNonEmptyMiddle(s, c, i, j);
    }
  }

  lemma {:induction false} StripAllOf(s: string, c: char, i: nat)
    requires i <= |s|
    requires forall k :: 0 <= k < i ==> s[k] == c
    requires forall k :: i <= k < |s| ==> s[k] == c
    ensures Strip(s, c) == []
  {
    TrimStartStopsAt(s, c, |s|);
  }

  lemma {:induction false} StripNonEmptyMiddle(s: string, c: char, i: nat, j: nat)
    requires i < j <= |s|
    requires forall k :: 0 <= k < i ==> s[k] == c
    requires forall k :: j <= k < |s| ==> s[k] == c
    requires s[i] != c && s[j - 1] != c
    ensures Strip(s, c) == s[i..j]
  {
    TrimStartStopsAt(s, c, i);
    var t := s[i..];
    forall k | j - i <= k < |t|
      ensures t[k] == c
    {
      assert t[k] == s[i + k];
    }
    assert t[j - i - 1] == s[j - 1];
    TrimEndStopsAt(t, c, j - i);
    assert t[..j - i] == s[i..j];
  }

  /** Stripping twice is the same as stripping once. */
  lemma StripIdempotent(s: string, c: char)
    ensures Strip(Strip(s, c), c) == Strip(s, c)
  {
    var r := Strip(s, c);
    StripIsMiddle(r, c, 0, |r|);
    assert r[0..|r|] == r;
  }

  /** The summed length of `lines`. */
  function TotalLength(lines: seq<string>): nat {
    if lines == [] then 0 else |lines[0]| + TotalLength(lines[1..])
  }

  /**
   * `"\n".join(lines)`: one separator between consecutive lines, none at
   * either end (`JoinLinesAppend` and `JoinLinesEnds` say where they go).
   */
  function JoinLines(lines: seq<string>): (r: string)
    ensures |lines| == 0 ==> r == ""
    ensures |lines| >= 1 ==> |r| == TotalLength(lines) + |lines| - 1
  {
    if |lines| == 0 then ""
    else if |lines| == 1 then lines[0]
    else lines[0] + "\n" + JoinLines(lines[1..])
  }

  /**
   * Joining two non-empty runs of lines is joining each run and putting
   * one `"\n"` between them: the separator goes exactly between lines.
   */
  lemma {:induction false} JoinLinesAppend(a: seq<string>, b: seq<string>)
    requires |a| >= 1 && |b| >= 1
    ensures JoinLines(a + b) == JoinLines(a) + "\n" + JoinLines(b)
    decreases |a|
  {
    assert (a + b)[0] == a[0];
    assert (a + b)[1..] == a[1..] + b;
    if |a| > 1 {
      JoinLinesAppend(a[1..], b);
    }
  }

  /** A joined text starts with the first line. */
  lemma {:induction false} JoinLinesStarts(lines: seq<string>)
    requires |lines| >= 1
    ensures StartsWith(JoinLines(lines), lines[0])
  {
    if |lines| > 1 {
      var first, rest := lines[0], "\n" + JoinLines(lines[1..]);
      assert JoinLines(lines) == first + rest;
      assert (first + rest)[..|first|] == first;
    }
  }

  /** A joined text ends with the last line. */
  lemma {:induction false} JoinLinesFinishes(lines: seq<string>)
    requires |lines| >= 1
    ensures EndsWith(JoinLines(lines), lines[|lines| - 1])
  {
    var n := |lines|;
    if n > 1 {
      var init, last := lines[..n - 1], lines[n - 1];
      assert lines == init + [last];
      JoinLinesAppend(init, [last]);
      var front := JoinLines(init) + "\n";
      assert JoinLines(lines) == front + last;
      assert (front + last)[|front|..] == last;
    }
  }

  /** A joined text starts with the first line and ends with the last. */
  lemma {:induction false} JoinLinesEnds(lines: seq<string>)
    requires |lines| >= 1
    ensures StartsWith(JoinLines(lines), lines[0])
    ensures EndsWith(JoinLines(lines), lines[|lines| - 1])
  {
    JoinLinesStarts(lines);
    JoinLinesFinishes(lines);
  }

  /**
   * Splits `s` at the first `c`: the part before it (free of `c`) and the
   * part after it; `None` exactly when `s` holds no `c`.
   */
  function SplitAt(s: string, c: char): (r: Option<(string, string)>)
    ensures r.None? <==> c !in s
    ensures r.Some? ==> c !in r.value.0 && s == r.value.0 + [c] + r.value.1
  {
    if s == [] then None
    else if s[0] == c then Some(([], s[1..]))
    else match SplitAt(s[1..], c)
      case None => None
      case Some((before, after)) =>
        assert s == [s[0]] + s[1..];
        Some(([s[0]] + before, after))
  }

  /** Splitting `a + [c] + b` at `c` gives back `a` and `b` when `a` holds no `c`. */
  lemma {:induction false} SplitAtFirst(a: string, c: char, b: string)
    requires c !in a
    ensures SplitAt(a + [c] + b, c) == Some((a, b))
  {
    var s := a + [c] + b;
    if a != [] {
      assert s[0] == a[0] && s[1..] == a[1..] + [c] + b;
      SplitAtFirst(a[1..], c, b);
      assert [a[0]] + a[1..] == a;
    } else {
      assert s[1..] == b;
    }
  }
}
