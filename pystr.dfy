/** The parts of Python's `str` that the certificate generator relies on:
    `isspace` (as used by `split()` and `strip()`), `split()` with no
    separator, `strip()`, `' '.join`, `title()`, `find` and `rfind`.
    Strings are sequences of code points, as in Python 3. */
module PyStr {

  /** A code point that `str.split()` and `str.strip()` treat as whitespace
      (CPython's table for `str.isspace`). */
  predicate IsSpace(c: char) {
    var n := c as int;
    (9 <= n <= 13) || (28 <= n <= 32) || n == 0x85 || n == 0xA0 || n == 0x1680
    || (0x2000 <= n <= 0x200A) || n == 0x2028 || n == 0x2029 || n == 0x202F
    || n == 0x205F || n == 0x3000
  }

  predicate IsAsciiLower(c: char) { 'a' <= c <= 'z' }
  predicate IsAsciiUpper(c: char) { 'A' <= c <= 'Z' }
  predicate IsAsciiLetter(c: char) { IsAsciiLower(c) || IsAsciiUpper(c) }
  predicate IsAsciiDigit(c: char) { '0' <= c <= '9' }

  /** Upper-casing of one character; only ASCII letters are cased here. */
  function Upper(c: char): (u: char)
    ensures !IsAsciiLower(u)
    ensures IsAsciiLetter(u) <==> IsAsciiLetter(c)
    ensures !IsAsciiLower(c) ==> u == c
  {
    if IsAsciiLower(c) then (c as int - 32) as char else c
  }

  /** Lower-casing of one character; only ASCII letters are cased here. */
  function Lower(c: char): (l: char)
    ensures !IsAsciiUpper(l)
    ensures IsAsciiLetter(l) <==> IsAsciiLetter(c)
    ensures !IsAsciiUpper(c) ==> l == c
  {
    if IsAsciiUpper(c) then (c as int + 32) as char else c
  }

  /** `s.find(c)`, except that "not found" is `|s|` rather than -1. */
  function FirstIndexOf(s: string, c: char): (i: nat)
    ensures i <= |s|
    ensures i < |s| ==> s[i] == c
    ensures forall j :: 0 <= j < i ==> s[j] != c
  {
    if s == [] then 0
    else if s[0] == c then 0
    else 1 + FirstIndexOf(s[1..], c)
  }

  /** `s.rfind(c)`: the last position of `c`, or -1. */
  function LastIndexOf(s: string, c: char): (i: int)
    ensures -1 <= i < |s|
    ensures 0 <= i ==> s[i] == c
    ensures forall j :: i < j < |s| ==> s[j] != c
  {
    if s == [] then -1
    else if s[|s| - 1] == c then |s| - 1
    else LastIndexOf(s[..|s| - 1], c)
  }

  /** A token of `split()`: non-empty and free of whitespace. */
  ghost predicate IsWord(w: string) {
    |w| > 0 && forall i :: 0 <= i < |w| ==> !IsSpace(w[i])
  }

  ghost predicate AllWords(ws: seq<string>) {
    forall k :: 0 <= k < |ws| ==> IsWord(ws[k])
  }

  /** Length of the run of non-whitespace at the front of `s`. */
  function WordLength(s: string): (n: nat)
    ensures n <= |s|
    ensures forall i :: 0 <= i < n ==> !IsSpace(s[i])
    ensures n < |s| ==> IsSpace(s[n])
  {
    if s == [] || IsSpace(s[0]) then 0 else 1 + WordLength(s[1..])
  }

  /** `s.split()`: the maximal runs of non-whitespace of `s`, in order. */
  function Split(s: string): (ws: seq<string>)
    ensures AllWords(ws)
    decreases |s|
  {
    if s == [] then []
    else if IsSpace(s[0]) then Split(s[1..])
    else
      var n := WordLength(s);
      [s[..n]] + Split(s[n..])
  }

  /** `' '.join(ws)`. */
  function JoinWords(ws: seq<string>): string {
    if |ws| == 0 then ""
    else if |ws| == 1 then ws[0]
    else ws[0] + " " + JoinWords(ws[1..])
  }

  /** `s.lstrip()`: drops the leading whitespace and nothing else. */
  function StripStart(s: string): (t: string)
    ensures |t| <= |s| && t == s[|s| - |t|..]
    ensures forall i :: 0 <= i < |s| - |t| ==> IsSpace(s[i])
    ensures t == [] || !IsSpace(t[0])
  {
    if s != [] && IsSpace(s[0]) then StripStart(s[1..]) else s
  }

  /** `s.rstrip()`: drops the trailing whitespace and nothing else. */
  function StripEnd(s: string): (t: string)
    ensures |t| <= |s| && t == s[..|t|]
    ensures forall i :: |t| <= i < |s| ==> IsSpace(s[i])
    ensures t == [] || !IsSpace(t[|t| - 1])
  {
    if s != [] && IsSpace(s[|s| - 1]) then StripEnd(s[..|s| - 1]) else s
  }

  /** `s.strip()`. */
  function Strip(s: string): string {
    StripEnd(StripStart(s))
  }

  /** `w.title()` continued after a character whose casedness is `prevCased`:
      each character is title-cased after an uncased one and lower-cased
      after a cased one. */
  function TitleFrom(w: string, prevCased: bool): (t: string)
    ensures |t| == |w|
  {
    if w == [] then []
    else [if prevCased then Lower(w[0]) else Upper(w[0])] + TitleFrom(w[1..], IsAsciiLetter(w[0]))
  }

  /** `w.title()`. */
  function Title(w: string): string {
    TitleFrom(w, false)
  }

  /** No whitespace at either end, and each whitespace character inside is a
      single ' ' between two non-whitespace characters. */
  ghost predicate SingleSpaced(r: string) {
    (r == [] || (!IsSpace(r[0]) && !IsSpace(r[|r| - 1]))) &&
    forall i :: 0 <= i < |r| - 1 && IsSpace(r[i]) ==> r[i] == ' ' && !IsSpace(r[i + 1])
  }

  // ----- split -----

  /** `split()` yields nothing exactly on strings made only of whitespace. */
  lemma {:induction false} SplitEmptyIffBlank(s: string)
    ensures Split(s) == [] <==> forall i :: 0 <= i < |s| ==> IsSpace(s[i])
    decreases |s|
  {
    if s != [] && IsSpace(s[0]) {
      SplitEmptyIffBlank(s[1..]);
      assert forall i :: 1 <= i < |s| ==> s[i] == s[1..][i - 1];
    }
  }

  /** `s[b..e]` is a maximal run of non-whitespace characters of `s`. */
  ghost predicate IsRun(s: string, b: nat, e: nat) {
    b < e <= |s| &&
    (forall i :: b <= i < e ==> !IsSpace(s[i])) &&
    (b == 0 || IsSpace(s[b - 1])) &&
    (e == |s| || IsSpace(s[e]))
  }

  /** The tokens `ws` are the maximal runs of `s` from position `d` on:
      token `k` is `s[starts[k]..ends[k]]`, the runs are listed left to right
      without overlap, and together they hold every non-whitespace character
      of `s` at or after `d`. */
  ghost predicate RunsFrom(s: string, d: nat, ws: seq<string>, starts: seq<nat>, ends: seq<nat>) {
    RunsAt(s, d, ws, starts, ends) && RunsOrdered(starts, ends) && RunsCover(s, d, starts, ends)
  }

  /** Token `k` is the maximal run `s[starts[k]..ends[k]]`, at or after `d`. */
  ghost predicate RunsAt(s: string, d: nat, ws: seq<string>, starts: seq<nat>, ends: seq<nat>) {
    |starts| == |ws| && |ends| == |ws| &&
    forall k :: 0 <= k < |ws| ==> d <= starts[k] && IsRun(s, starts[k], ends[k]) && ws[k] == s[starts[k]..ends[k]]
  }

  /** Each run ends before the next one starts. */
  ghost predicate RunsOrdered(starts: seq<nat>, ends: seq<nat>) {
    forall k, l :: 0 <= k < l < |starts| && k < |ends| ==> ends[k] < starts[l]
  }

  /** Every non-whitespace character of `s` at or after `d` lies in a run. */
  ghost predicate RunsCover(s: string, d: nat, starts: seq<nat>, ends: seq<nat>) {
    forall i {:trigger Covered(starts, ends, i)} :: d <= i < |s| && !IsSpace(s[i]) ==> Covered(starts, ends, i)
  }

  /** Position `i` lies in one of the runs `starts[k]..ends[k]`. */
  ghost predicate Covered(starts: seq<nat>, ends: seq<nat>, i: nat) {
    exists k :: 0 <= k < |starts| && k < |ends| && starts[k] <= i < ends[k]
  }

  /** A whitespace character at `d` adds no token. */
  lemma RunsFromSpace(s: string, d: nat, ws: seq<string>, starts: seq<nat>, ends: seq<nat>)
    requires d < |s| && IsSpace(s[d])
    requires RunsFrom(s, d + 1, ws, starts, ends)
    ensures RunsFrom(s, d, ws, starts, ends)
  {
  }

  /** A maximal run `s[d..e]` in front of the runs from `e` on is one more token. */
  lemma RunsFromWord(s: string, d: nat, e: nat, ws: seq<string>, starts: seq<nat>, ends: seq<nat>)
    requires d < e <= |s| && IsRun(s, d, e)
    requires RunsFrom(s, e, ws, starts, ends)
    ensures RunsFrom(s, d, [s[d..e]] + ws, [d] + starts, [e] + ends)
  {
    RunsAtWord(s, d, e, ws, starts, ends);
    RunsOrderedWord(d, e, starts, ends);
    RunsCoverWord(s, d, e, starts, ends);
  }

  /** The tokens of `RunsFromWord`, one by one; the later runs start after `e`. */
  lemma RunsAtWord(s: string, d: nat, e: nat, ws: seq<string>, starts: seq<nat>, ends: seq<nat>)
    requires d < e <= |s| && IsRun(s, d, e)
    requires RunsAt(s, e, ws, starts, ends)
    ensures RunsAt(s, d, [s[d..e]] + ws, [d] + starts, [e] + ends)
    ensures forall k :: 0 <= k < |starts| ==> e < starts[k]
  {
    forall k | 0 <= k < |starts|
      ensures e < starts[k]
    {
      assert IsRun(s, starts[k], ends[k]);
    }
    var ws', st, en := [s[d..e]] + ws, [d] + starts, [e] + ends;
    forall k | 0 < k < |ws'|
      ensures d <= st[k] && IsRun(s, st[k], en[k]) && ws'[k] == s[st[k]..en[k]]
    {
      assert st[k] == starts[k - 1] && en[k] == ends[k - 1] && ws'[k] == ws[k - 1];
    }
  }

  /** The order of `RunsFromWord`: the new run ends before every later one starts. */
  lemma RunsOrderedWord(d: nat, e: nat, starts: seq<nat>, ends: seq<nat>)
    requires |starts| == |ends| && RunsOrdered(starts, ends)
    requires forall k :: 0 <= k < |starts| ==> e < starts[k]
    ensures RunsOrdered([d] + starts, [e] + ends)
  {
    var st, en := [d] + starts, [e] + ends;
    forall k, l | 0 <= k < l < |st|
      ensures en[k] < st[l]
    {
      assert st[l] == starts[l - 1];
      if k > 0 {
        assert en[k] == ends[k - 1];
      }
    }
  }

  /** The coverage of `RunsFromWord`: `s[d..e]` covers what lies before `e`. */
  lemma RunsCoverWord(s: string, d: nat, e: nat, starts: seq<nat>, ends: seq<nat>)
    requires d < e <= |s| && |starts| == |ends|
    requires RunsCover(s, e, starts, ends)
    ensures RunsCover(s, d, [d] + starts, [e] + ends)
  {
    var st, en := [d] + starts, [e] + ends;
    forall i | d <= i < |s| && !IsSpace(s[i])
      ensures Covered(st, en, i)
    {
      if i < e {
        assert st[0] <= i < en[0];
      } else {
        assert Covered(starts, ends, i);
        var k :| 0 <= k < |starts| && k < |ends| && starts[k] <= i < ends[k];
        assert st[k + 1] <= i < en[k + 1];
      }
    }
  }

  /** `split()` skips a leading whitespace character. */
  lemma SplitFromSpace(s: string, d: nat)
    requires d < |s| && IsSpace(s[d])
    ensures Split(s[d..]) == Split(s[d + 1..])
  {
    assert s[d..][1..] == s[d + 1..];
  }

  /** `split()` takes a leading run `s[d..e]` as its first token. */
  lemma SplitFromWord(s: string, d: nat) returns (e: nat)
    requires d < |s| && !IsSpace(s[d])
    requires d == 0 || IsSpace(s[d - 1])
    ensures d < e <= |s| && IsRun(s, d, e)
    ensures Split(s[d..]) == [s[d..e]] + Split(s[e..])
  {
    var t := s[d..];
    var n := WordLength(t);
    e := d + n;
    assert t[n..] == s[e..];
    assert t[..n] == s[d..e];
    forall i | d <= i < e
      ensures !IsSpace(s[i])
    {
      assert s[i] == t[i - d];
    }
    assert e < |s| ==> s[e] == t[n];
  }

  /** The tokens of `s[d..].split()` are the maximal runs of `s` from `d`
      on, when `d` does not cut a run of `s` in two. */
  lemma {:induction false} SplitRunsFrom(s: string, d: nat) returns (starts: seq<nat>, ends: seq<nat>)
    requires d <= |s|
    requires d == 0 || d == |s| || IsSpace(s[d - 1]) || IsSpace(s[d])
    ensures RunsFrom(s, d, Split(s[d..]), starts, ends)
    decreases |s| - d
  {
    if d == |s| {
      assert s[d..] == [];
      starts, ends := [], [];
    } else if IsSpace(s[d]) {
      SplitFromSpace(s, d);
      starts, ends := SplitRunsFrom(s, d + 1);
      RunsFromSpace(s, d, Split(s[d + 1..]), starts, ends);
    } else {
      var e := SplitFromWord(s, d);
      var st, en := SplitRunsFrom(s, e);
      RunsFromWord(s, d, e, Split(s[e..]), st, en);
      starts, ends := [d] + st, [e] + en;
    }
  }

  /** The tokens of `split()` are exactly the maximal runs of non-whitespace
      of `s`, in order: token `k` is `s[starts[k]..ends[k]]`, and every
      non-whitespace character of `s` lies in one of them. */
  lemma SplitRuns(s: string) returns (starts: seq<nat>, ends: seq<nat>)
    ensures RunsFrom(s, 0, Split(s), starts, ends)
  {
    assert s[0..] == s;
    starts, ends := SplitRunsFrom(s, 0);
  }

  /** Leading whitespace does not change `split()`. */
  lemma {:induction false} SplitStripStart(s: string)
    ensures Split(StripStart(s)) == Split(s)
    decreases |s|
  {
    if s != [] && IsSpace(s[0]) {
      SplitStripStart(s[1..]);
    }
  }

  /** One trailing whitespace character does not change `split()`. */
  lemma {:induction false} SplitDropLastSpace(s: string)
    requires |s| > 0 && IsSpace(s[|s| - 1])
    ensures Split(s) == Split(s[..|s| - 1])
    decreases |s|
  {
    var t := s[..|s| - 1];
    if |s| == 1 {
    } else if IsSpace(s[0]) {
      SplitDropLastSpace(s[1..]);
      assert s[1..][..|s| - 2] == t[1..];
    } else {
      var n := WordLength(s);
      assert n < |s|;
      var m := WordLength(t);
      assert t[..n] == s[..n];
      assert forall i :: 0 <= i < |t| ==> t[i] == s[i];
      assert m == n;
      SplitDropLastSpace(s[n..]);
      assert s[n..][..|s[n..]| - 1] == t[n..];
    }
  }

  /** Trailing whitespace does not change `split()`. */
  lemma {:induction false} SplitStripEnd(s: string)
    ensures Split(StripEnd(s)) == Split(s)
    decreases |s|
  {
    if s != [] && IsSpace(s[|s| - 1]) {
      SplitDropLastSpace(s);
      SplitStripEnd(s[..|s| - 1]);
    }
  }

  /** `s.strip().split() == s.split()`. */
  lemma SplitStrip(s: string)
    ensures Split(Strip(s)) == Split(s)
  {
    SplitStripEnd(StripStart(s));
    SplitStripStart(s);
  }

  /** `' '.join` followed by `split()` gives the words back. */
  lemma {:induction false} SplitJoinWords(ws: seq<string>)
    requires AllWords(ws)
    ensures Split(JoinWords(ws)) == ws
    decreases |ws|
  {
    if |ws| == 0 {
    } else {
      var w := ws[0];
      assert IsWord(w);
      var s := JoinWords(ws);
      var rest := if |ws| == 1 then "" else " " + JoinWords(ws[1..]);
      assert s == w + rest;
      var n := WordLength(s);
      assert forall i :: 0 <= i < |w| ==> s[i] == w[i];
      assert |w| < |s| ==> s[|w|] == ' ';
      assert n == |w|;
      assert s[..n] == w;
      assert s[n..] == rest;
      if |ws| > 1 {
        SplitJoinWords(ws[1..]);
        assert rest[1..] == JoinWords(ws[1..]);
      }
    }
  }

  /** `' '.join` of words is single-spaced. */
  lemma {:induction false} JoinWordsSingleSpaced(ws: seq<string>)
    requires AllWords(ws)
    ensures SingleSpaced(JoinWords(ws))
    decreases |ws|
  {
    if |ws| > 1 {
      var w := ws[0];
      assert IsWord(w);
      var j := JoinWords(ws[1..]);
      JoinWordsSingleSpaced(ws[1..]);
      assert j != [] by { assert IsWord(ws[1]); }
      var r := w + " " + j;
      assert r == JoinWords(ws);
      forall i | 0 <= i < |r| - 1 && IsSpace(r[i])
        ensures r[i] == ' ' && !IsSpace(r[i + 1])
      {
        if i == |w| {
          assert r[i + 1] == j[0];
        } else {
          assert r[i] == j[i - |w| - 1] && r[i + 1] == j[i - |w|];
        }
      }
    } else if |ws| == 1 {
      assert IsWord(ws[0]);
    }
  }

  // ----- title -----

  lemma {:induction false} TitleFromAt(w: string, prevCased: bool, i: nat)
    requires i < |w|
    ensures TitleFrom(w, prevCased)[i] ==
      if (if i == 0 then prevCased else IsAsciiLetter(w[i - 1])) then Lower(w[i]) else Upper(w[i])
    decreases i
  {
    if i > 0 {
      TitleFromAt(w[1..], IsAsciiLetter(w[0]), i - 1);
    }
  }

  /** `title()` character by character: a character is upper-cased when it
      is first or follows an uncased character, and lower-cased when it
      follows a cased one (ASCII letters are the cased characters). */
  lemma TitleAt(w: string, i: nat)
    requires i < |w|
    ensures |Title(w)| == |w|
    ensures Title(w)[i] == if i > 0 && IsAsciiLetter(w[i - 1]) then Lower(w[i]) else Upper(w[i])
  {
    TitleFromAt(w, false, i);
  }

  /** `title()` is idempotent and keeps a word a word. */
  lemma TitleIdempotent(w: string)
    ensures Title(Title(w)) == Title(w)
    ensures IsWord(w) ==> IsWord(Title(w))
  {
    var t := Title(w);
    forall i | 0 <= i < |w|
      ensures Title(t)[i] == t[i]
      ensures IsSpace(t[i]) == IsSpace(w[i])
    {
      TitleAt(w, i);
      TitleAt(t, i);
      if i > 0 { TitleAt(w, i - 1); }
    }
  }
}
