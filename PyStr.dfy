/**
 * The Python string operations the text analyzer is built from, stated over
 * `seq<char>`: `str.split()`, `str.split(sep)`, `str.strip()`,
 * `str.replace(c, "")`, `str.count(sep)`, and `re.findall` of a pattern
 * `[...]+` (the maximal runs of a character class).
 */
module PyStr {

  /** Python's whitespace: the characters `str.split()` and `str.strip()` break on. */
  predicate IsSpace(c: char) {
    var n := c as int;
    (9 <= n <= 13) || (28 <= n <= 32) || n == 0x85 || n == 0xA0 || n == 0x1680
    || (0x2000 <= n <= 0x200A) || n == 0x2028 || n == 0x2029 || n == 0x202F
    || n == 0x205F || n == 0x3000
  }

  /** A character that can be part of a whitespace-delimited token. */
  predicate IsWordChar(c: char) {
    !IsSpace(c)
  }

  predicate AllSatisfy(s: string, p: char -> bool) {
    forall i :: 0 <= i < |s| ==> p(s[i])
  }

  /** A blank text: every character is whitespace. */
  predicate AllSpace(s: string) {
    AllSatisfy(s, IsSpace)
  }

  predicate NoneSatisfy(s: string, p: char -> bool) {
    forall i :: 0 <= i < |s| ==> !p(s[i])
  }

  // ---------------------------------------------------------------------------
  // Maximal runs of a character class: `str.split()` and `re.findall("[...]+")`
  // ---------------------------------------------------------------------------

  /** Length of the longest prefix of `s` whose characters all satisfy `p`. */
  function RunLength(s: string, p: char -> bool): (n: nat)
    ensures n <= |s|
    ensures AllSatisfy(s[..n], p)
    ensures n < |s| ==> !p(s[n])
  {
    if s == [] || !p(s[0]) then 0 else 1 + RunLength(s[1..], p)
  }

  /** The maximal runs of characters satisfying `p`, left to right. */
  function Runs(s: string, p: char -> bool): (rs: seq<string>)
    ensures forall k :: 0 <= k < |rs| ==> rs[k] != [] && AllSatisfy(rs[k], p)
    decreases |s|
  {
    if s == [] then []
    else if !p(s[0]) then Runs(s[1..], p)
    else
      var n := RunLength(s, p);
      [s[..n]] + Runs(s[n..], p)
  }

  /**
   * Independent count of the maximal runs: the positions holding a `p`
   * character whose predecessor is not one (`afterRun` says whether the
   * character before `s` satisfied `p`).
   */
  function RunStarts(s: string, p: char -> bool, afterRun: bool): (n: nat) {
    if s == [] then 0
    else (if p(s[0]) && !afterRun then 1 else 0) + RunStarts(s[1..], p, p(s[0]))
  }

  /** The characters of `s` that satisfy `p`, in order. */
  function Filter(s: string, p: char -> bool): (r: string)
    ensures |r| <= |s| && AllSatisfy(r, p)
  {
    if s == [] then [] else (if p(s[0]) then [s[0]] else []) + Filter(s[1..], p)
  }

  /** The strings of `ws` laid end to end (Python's `"".join(ws)`). */
  function Concat(ws: seq<string>): (s: string) {
    if ws == [] then [] else ws[0] + Concat(ws[1..])
  }

  /** Python's `sep.join(ws)`. */
  function Join(ws: seq<string>, sep: string): (s: string) {
    if ws == [] then []
    else if |ws| == 1 then ws[0]
    else ws[0] + sep + Join(ws[1..], sep)
  }

  lemma {:induction false} RunLengthOfPrefix(w: string, t: string, p: char -> bool)
    requires AllSatisfy(w, p)
    requires t == [] || !p(t[0])
    ensures RunLength(w + t, p) == |w|
  {
    if w != [] {
      assert (w + t)[1..] == w[1..] + t;
      RunLengthOfPrefix(w[1..], t, p);
    }
  }

  lemma {:induction false} RunsSkip(x: string, t: string, p: char -> bool)
    requires NoneSatisfy(x, p)
    ensures Runs(x + t, p) == Runs(t, p)
  {
    if x != [] {
      assert (x + t)[0] == x[0] && !p(x[0]);
      assert (x + t)[1..] == x[1..] + t;
      RunsSkip(x[1..], t, p);
    } else {
      assert x + t == t;
    }
  }

  /** A run of `p` characters stops at the first character outside `p`. */
  lemma {:induction false} RunLengthBeforeStop(a: string, c: char, b: string, p: char -> bool)
    requires !p(c)
    ensures RunLength(a + [c] + b, p) == RunLength(a, p)
  {
    var s := a + [c] + b;
    if a == [] {
      assert s[0] == c;
    } else {
      assert s[0] == a[0];
      assert s[1..] == a[1..] + [c] + b;
      RunLengthBeforeStop(a[1..], c, b, p);
    }
  }

  /**
   * A character outside the class cuts the text: the runs of the whole are
   * the runs before it followed by the runs after it. With `RunsOfRun` this
   * pins every run down: each is a maximal stretch of `p` characters.
   */
  lemma {:induction false} RunsSplitAt(a: string, c: char, b: string, p: char -> bool)
    requires !p(c)
    ensures Runs(a + [c] + b, p) == Runs(a, p) + Runs(b, p)
    decreases |a|
  {
    var s := a + [c] + b;
    if a == [] {
      assert s[0] == c && s[1..] == b;
    } else if !p(a[0]) {
      assert s[0] == a[0] && s[1..] == a[1..] + [c] + b;
      RunsSplitAt(a[1..], c, b, p);
    } else {
      var n := RunLength(a, p);
      RunLengthBeforeStop(a, c, b, p);
      assert s[0] == a[0];
      assert s[..n] == a[..n];
      assert s[n..] == a[n..] + [c] + b;
      RunsSplitAt(a[n..], c, b, p);
    }
  }

  /** A non-empty text made only of `p` characters is one run: itself. */
  lemma {:induction false} RunsOfRun(w: string, p: char -> bool)
    requires w != [] && AllSatisfy(w, p)
    ensures Runs(w, p) == [w]
  {
    RunLengthOfPrefix(w, [], p);
    assert w + [] == w;
    assert w[..|w|] == w && w[|w|..] == [];
  }

  /** There are no runs exactly when no character satisfies `p`. */
  lemma {:induction false} RunsEmptyIff(s: string, p: char -> bool)
    ensures Runs(s, p) == [] <==> NoneSatisfy(s, p)
    decreases |s|
  {
    if s != [] && !p(s[0]) {
      RunsEmptyIff(s[1..], p);
      assert forall i :: 1 <= i < |s| ==> s[i] == s[1..][i - 1];
    }
  }

  lemma {:induction false} RunStartsInsideRun(t: string, m: nat, p: char -> bool)
    requires m <= |t| && forall i :: 0 <= i < m ==> p(t[i])
    ensures RunStarts(t, p, true) == RunStarts(t[m..], p, true)
  {
    if m > 0 {
      RunStartsInsideRun(t[1..], m - 1, p);
      assert t[1..][m - 1..] == t[m..];
    }
  }

  /** The runs are exactly as many as the run starts. */
  lemma {:induction false} RunsCount(s: string, p: char -> bool)
    ensures |Runs(s, p)| == RunStarts(s, p, false)
    decreases |s|
  {
    if s == [] {
    } else if !p(s[0]) {
      RunsCount(s[1..], p);
    } else {
      var n := RunLength(s, p);
      assert forall i :: 0 <= i < n - 1 ==> s[1..][i] == s[..n][i + 1];
      RunStartsInsideRun(s[1..], n - 1, p);
      assert s[1..][n - 1..] == s[n..];
      RunsCount(s[n..], p);
    }
  }

  lemma {:induction false} FilterAppend(a: string, b: string, p: char -> bool)
    ensures Filter(a + b, p) == Filter(a, p) + Filter(b, p)
  {
    if a != [] {
      assert (a + b)[0] == a[0];
      assert (a + b)[1..] == a[1..] + b;
      FilterAppend(a[1..], b, p);
    } else {
      assert a + b == b;
    }
  }

  lemma {:induction false} FilterKeepsAll(s: string, p: char -> bool)
    requires AllSatisfy(s, p)
    ensures Filter(s, p) == s
  {
    if s != [] {
      FilterKeepsAll(s[1..], p);
    }
  }

  /** Laid end to end, the runs are the characters satisfying `p`, in order. */
  lemma {:induction false} RunsConcat(s: string, p: char -> bool)
    ensures Concat(Runs(s, p)) == Filter(s, p)
    decreases |s|
  {
    if s == [] {
    } else if !p(s[0]) {
      RunsConcat(s[1..], p);
    } else {
      var n := RunLength(s, p);
      assert s == s[..n] + s[n..];
      FilterAppend(s[..n], s[n..], p);
      FilterKeepsAll(s[..n], p);
      RunsConcat(s[n..], p);
      var rs := [s[..n]] + Runs(s[n..], p);
      assert rs[0] == s[..n] && rs[1..] == Runs(s[n..], p);
    }
  }

  /**
   * Round trip: joining tokens with a separator that is not part of any token
   * and splitting again gives back the tokens.
   */
  lemma {:induction false} RunsOfJoin(ws: seq<string>, sep: string, p: char -> bool)
    requires forall k :: 0 <= k < |ws| ==> ws[k] != [] && AllSatisfy(ws[k], p)
    requires sep != [] && NoneSatisfy(sep, p)
    ensures Runs(Join(ws, sep), p) == ws
  {
    if ws == [] {
    } else if |ws| == 1 {
      var w := ws[0];
      RunLengthOfPrefix(w, [], p);
      assert w + [] == w;
      assert w[|w|..] == [];
    } else {
      var w, rest := ws[0], Join(ws[1..], sep);
      var s := w + sep + rest;
      assert s == w + (sep + rest);
      RunLengthOfPrefix(w, sep + rest, p);
      assert s[|w|..] == sep + rest;
      RunsSkip(sep, rest, p);
      RunsOfJoin(ws[1..], sep, p);
      assert ws == [w] + ws[1..];
    }
  }

  // ---------------------------------------------------------------------------
  // `str.split(sep)` and `str.count(sep)`
  // ---------------------------------------------------------------------------

  /**
   * Python's `s.split(sep)`: cut at every occurrence of `sep`, found left to
   * right without overlap. There is always at least one part.
   */
  function SplitOn(s: string, sep: string): (parts: seq<string>)
    requires sep != []
    ensures |parts| >= 1
    decreases |s|
  {
    if |s| < |sep| then [s]
    else if s[..|sep|] == sep then [[]] + SplitOn(s[|sep|..], sep)
    else
      var rest := SplitOn(s[1..], sep);
      [[s[0]] + rest[0]] + rest[1..]
  }

  /** Python's `s.count(sep)`: non-overlapping occurrences, left to right. */
  function CountOf(s: string, sep: string): (n: nat)
    requires sep != []
    decreases |s|
  {
    if |s| < |sep| then 0
    else if s[..|sep|] == sep then 1 + CountOf(s[|sep|..], sep)
    else CountOf(s[1..], sep)
  }

  /** A separator whose first character never occurs does not occur. */
  lemma {:induction false} CountOfAbsent(s: string, sep: string)
    requires sep != [] && sep[0] !in s
    ensures CountOf(s, sep) == 0
    decreases |s|
  {
    if |s| >= |sep| {
      assert s[..|sep|][0] == s[0];
      CountOfAbsent(s[1..], sep);
    }
  }

  /** Splitting makes one more part than there are separators. */
  lemma {:induction false} SplitOnCount(s: string, sep: string)
    requires sep != []
    ensures |SplitOn(s, sep)| == CountOf(s, sep) + 1
    decreases |s|
  {
    if |s| < |sep| {
    } else if s[..|sep|] == sep {
      SplitOnCount(s[|sep|..], sep);
    } else {
      SplitOnCount(s[1..], sep);
    }
  }

  lemma JoinPrepend(c: string, ws: seq<string>, sep: string)
    requires |ws| >= 1
    ensures Join([c + ws[0]] + ws[1..], sep) == c + Join(ws, sep)
  {
    var parts := [c + ws[0]] + ws[1..];
    assert parts[1..] == ws[1..];
    if |ws| > 1 {
      assert c + (ws[0] + sep + Join(ws[1..], sep)) == (c + ws[0]) + sep + Join(ws[1..], sep);
    }
  }

  /** Round trip: `sep.join(s.split(sep)) == s`. */
  lemma {:induction false} JoinSplitOn(s: string, sep: string)
    requires sep != []
    ensures Join(SplitOn(s, sep), sep) == s
    decreases |s|
  {
    if |s| < |sep| {
    } else if s[..|sep|] == sep {
      var rest := SplitOn(s[|sep|..], sep);
      JoinSplitOn(s[|sep|..], sep);
      var parts: seq<string> := [[]] + rest;
      assert parts[1..] == rest;
      assert Join(parts, sep) == [] + sep + Join(rest, sep);
      assert s == sep + s[|sep|..];
    } else {
      var rest := SplitOn(s[1..], sep);
      JoinSplitOn(s[1..], sep);
      JoinPrepend([s[0]], rest, sep);
      assert s == [s[0]] + s[1..];
    }
  }

  lemma AllSpaceAppend(a: string, b: string)
    ensures AllSpace(a + b) <==> AllSpace(a) && AllSpace(b)
  {
    if AllSpace(a) && AllSpace(b) {
      forall i | 0 <= i < |a + b| ensures IsSpace((a + b)[i]) {
        if i >= |a| { assert (a + b)[i] == b[i - |a|]; }
      }
    }
    if AllSpace(a + b) {
      assert forall i :: 0 <= i < |a| ==> (a + b)[i] == a[i];
      forall i | 0 <= i < |b| ensures IsSpace(b[i]) {
        assert (a + b)[|a| + i] == b[i];
      }
    }
  }

  /** With a whitespace separator, a joined text is blank exactly when every part is. */
  lemma {:induction false} AllSpaceJoin(ws: seq<string>, sep: string)
    requires AllSpace(sep)
    ensures AllSpace(Join(ws, sep)) <==> forall w :: w in ws ==> AllSpace(w)
  {
    if |ws| > 1 {
      AllSpaceJoin(ws[1..], sep);
      AllSpaceAppend(ws[0], sep);
      AllSpaceAppend(ws[0] + sep, Join(ws[1..], sep));
      assert forall w :: w in ws <==> w == ws[0] || w in ws[1..];
    }
  }

  // ---------------------------------------------------------------------------
  // `str.strip()`
  // ---------------------------------------------------------------------------

  /** Python's `s.lstrip()`. */
  function StripStart(s: string): (r: string)
    ensures |r| <= |s| && r == s[|s| - |r|..]
    ensures AllSpace(s[..|s| - |r|])
    ensures r == [] || !IsSpace(r[0])
  {
    if s != [] && IsSpace(s[0]) then
      var r := StripStart(s[1..]);
      assert s[..|s| - |r|] == [s[0]] + s[1..][..|s| - 1 - |r|];
      r
    else s
  }

  /** Python's `s.rstrip()`. */
  function StripEnd(s: string): (r: string)
    ensures |r| <= |s| && r == s[..|r|]
    ensures AllSpace(s[|r|..])
    ensures r == [] || !IsSpace(r[|r| - 1])
  {
    if s != [] && IsSpace(s[|s| - 1]) then
      var r := StripEnd(s[..|s| - 1]);
      assert s[|r|..] == s[..|s| - 1][|r|..] + [s[|s| - 1]];
      r
    else s
  }

  /** What the two halves of `Strip` cut off is blank, so only a blank text strips to nothing. */
  lemma StripBlank(s: string, t: string, r: string)
    requires |t| <= |s| && t == s[|s| - |t|..] && AllSpace(s[..|s| - |t|])
    requires |r| <= |t| && r == t[..|r|] && AllSpace(t[|r|..])
    requires r == [] || !IsSpace(r[0])
    ensures r == [] <==> AllSpace(s)
  {
    var cut := s[..|s| - |t|];
    assert s == cut + t;
    AllSpaceAppend(cut, t);
    if r == [] {
      assert t[|r|..] == t;
    } else {
      assert t == r + t[|r|..];
      AllSpaceAppend(r, t[|r|..]);
      assert !AllSpace(r);
    }
  }

  /**
   * Python's `s.strip()`: `s` without leading and trailing whitespace. It is
   * empty exactly when `s` is blank.
   */
  function Strip(s: string): (r: string)
    ensures r == [] <==> AllSpace(s)
    ensures r == [] || (!IsSpace(r[0]) && !IsSpace(r[|r| - 1]))
  {
    var t := StripStart(s);
    var r := StripEnd(t);
    StripBlank(s, t, r);
    r
  }

  // ---------------------------------------------------------------------------
  // `str.replace(c, "")`
  // ---------------------------------------------------------------------------

  /** Number of occurrences of `c` in `s`. */
  function Occurrences(s: string, c: char): (n: nat) {
    if s == [] then 0 else (if s[0] == c then 1 else 0) + Occurrences(s[1..], c)
  }

  /**
   * Python's `s.replace(x, "")` for a one-character `x`: every `x` goes and
   * every other character stays, as often as it occurred.
   */
  function RemoveChar(s: string, x: char): (r: string)
    ensures |r| == |s| - Occurrences(s, x)
    ensures Occurrences(r, x) == 0
    ensures forall c :: c != x ==> Occurrences(r, c) == Occurrences(s, c)
  {
    if s == [] then []
    else
      var rest := RemoveChar(s[1..], x);
      if s[0] == x then rest
      else
        var r := [s[0]] + rest;
        assert r[0] == s[0] && r[1..] == rest;
        r
  }
}
