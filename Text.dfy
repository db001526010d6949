/** The Python string operations the modelled code relies on: `strip`,
    `lstrip(c)`, `startswith`/`endswith`, `split(sep)`, `split(sep, n)`,
    `splitlines`, `replace`, `int` on a decimal component, `lower` and `:02d`
    formatting. Each is written to follow CPython's documented behaviour on
    `str` values. */
module Text {
  import opened Wrappers

  // ---------------------------------------------------------------------------
  // Whitespace and strip()
  // ---------------------------------------------------------------------------

  /** The characters for which Python's `str.isspace()` holds; `str.strip()`
      with no argument removes exactly these from both ends. */
  predicate IsSpace(c: char) {
    || c == ' ' || c == '\t' || c == '\n' || c == '\r' || c == '\U{000B}' || c == '\U{000C}'
    || c == '\U{001C}' || c == '\U{001D}' || c == '\U{001E}' || c == '\U{001F}'
    || c == '\U{0085}' || c == '\U{00A0}' || c == '\U{1680}' || c == '\U{2028}' || c == '\U{2029}'
    || c == '\U{202F}' || c == '\U{205F}' || c == '\U{3000}'
    || ('\U{2000}' <= c <= '\U{200A}')
  }

  predicate AllSpace(s: string) {
    forall i :: 0 <= i < |s| ==> IsSpace(s[i])
  }

  /** A string that `strip()` leaves alone: empty, or with no whitespace at either end. */
  predicate IsStripped(s: string) {
    s == [] || (!IsSpace(s[0]) && !IsSpace(s[|s| - 1]))
  }

  /** The first index at or after `i` that is not whitespace (`|s|` if none). */
  function SkipSpace(s: string, i: nat): (k: nat)
    requires i <= |s|
    ensures i <= k <= |s|
    ensures forall j :: i <= j < k ==> IsSpace(s[j])
    ensures k < |s| ==> !IsSpace(s[k])
    decreases |s| - i
  {
    if i < |s| && IsSpace(s[i]) then SkipSpace(s, i + 1) else i
  }

  /** The length of the leading whitespace run of `s` (what `lstrip()` drops). */
  function LeadingSpace(s: string): (k: nat)
    ensures k <= |s|
    ensures forall i :: 0 <= i < k ==> IsSpace(s[i])
    ensures k < |s| ==> !IsSpace(s[k])
  {
    SkipSpace(s, 0)
  }

  /** The end of `s[a..e]` once its trailing whitespace run is dropped. */
  function KeptEnd(s: string, a: nat, e: nat): (k: nat)
    requires a <= e <= |s|
    ensures a <= k <= e
    ensures forall j :: k <= j < e ==> IsSpace(s[j])
    ensures a < k ==> !IsSpace(s[k - 1])
    decreases e
  {
    if a < e && IsSpace(s[e - 1]) then KeptEnd(s, a, e - 1) else e
  }

  /** `s.strip()`: `s` with its whitespace run removed at both ends; what is
      kept is the piece of `s` that starts after the leading run. */
  function Strip(s: string): (r: string)
    ensures IsStripped(r)
    ensures r == [] <==> AllSpace(s)
    ensures LeadingSpace(s) + |r| <= |s|
    ensures forall i :: 0 <= i < |r| ==> r[i] == s[LeadingSpace(s) + i]
    ensures forall i :: LeadingSpace(s) + |r| <= i < |s| ==> IsSpace(s[i])
  {
    var a := LeadingSpace(s);
    var e := KeptEnd(s, a, |s|);
    assert a < e ==> s[a..e][0] == s[a] && s[a..e][e - a - 1] == s[e - 1];
    s[a..e]
  }

  /** `s` is its leading whitespace, then what `strip()` keeps, then its
      trailing whitespace. */
  lemma StripParts(s: string) returns (p: string, q: string)
    ensures s == p + Strip(s) + q && AllSpace(p) && AllSpace(q)
  {
    var a := LeadingSpace(s);
    var e := KeptEnd(s, a, |s|);
    p, q := s[..a], s[e..];
    ThreeSlices(s, a, e);
  }

  /** Cutting `s` at `a` and `e` around a piece whose outside is whitespace. */
  lemma ThreeSlices(s: string, a: nat, e: nat)
    requires a <= e <= |s|
    requires forall j :: 0 <= j < a ==> IsSpace(s[j])
    requires forall j :: e <= j < |s| ==> IsSpace(s[j])
    ensures s == s[..a] + s[a..e] + s[e..] && AllSpace(s[..a]) && AllSpace(s[e..])
  {
    assert s == s[..a] + s[a..];
    assert s[a..] == s[a..e] + s[e..];
  }

  /** Whitespace in front changes nothing `strip()` keeps. */
  lemma StripSpaceBefore(c: char, s: string)
    requires IsSpace(c)
    ensures Strip([c] + s) == Strip(s)
  {
    var a := LeadingSpace(s);
    LeadingSpaceCons(c, s);
    KeptEndShift(c, s, a, |s|);
    SliceShift(c, s, a, KeptEnd(s, a, |s|));
  }

  lemma SliceShift(c: char, s: string, i: nat, j: nat)
    requires i <= j <= |s|
    ensures ([c] + s)[i + 1..j + 1] == s[i..j]
  {
  }

  /** Skipping whitespace in `[c] + s` from `i + 1` is skipping it in `s` from `i`. */
  lemma {:induction false} SkipSpaceShift(c: char, s: string, i: nat)
    requires i <= |s|
    ensures SkipSpace([c] + s, i + 1) == SkipSpace(s, i) + 1
    decreases |s| - i
  {
    var t := [c] + s;
    assert i < |s| ==> t[i + 1] == s[i];
    if i < |s| && IsSpace(s[i]) {
      SkipSpaceShift(c, s, i + 1);
    }
  }

  /** A whitespace character in front lengthens the leading run by one. */
  lemma LeadingSpaceCons(c: char, s: string)
    requires IsSpace(c)
    ensures LeadingSpace([c] + s) == LeadingSpace(s) + 1
  {
    var t := [c] + s;
    assert t[0] == c;
    assert SkipSpace(t, 0) == SkipSpace(t, 1);
    SkipSpaceShift(c, s, 0);
  }

  /** Dropping trailing whitespace commutes with a character in front. */
  lemma {:induction false} KeptEndShift(c: char, s: string, a: nat, e: nat)
    requires a <= e <= |s|
    ensures KeptEnd([c] + s, a + 1, e + 1) == KeptEnd(s, a, e) + 1
    decreases e
  {
    var t := [c] + s;
    assert a < e ==> t[e] == s[e - 1];
    if a < e && IsSpace(s[e - 1]) {
      KeptEndShift(c, s, a, e - 1);
    }
  }

  /** Whitespace at the end changes nothing `strip()` keeps. */
  lemma StripSpaceAfter(s: string, t: string)
    requires AllSpace(t)
    ensures Strip(s + t) == Strip(s)
  {
    var u := s + t;
    if !AllSpace(s) {
      var a := LeadingSpace(s);
      SkipSpaceAppend(s, t, 0);
      SpacesAfter(s, t);
      KeptEndSpaces(u, a, |s|, |u|);
      KeptEndAppend(s, t, a, |s|);
      SliceAppend(s, t, a, KeptEnd(s, a, |s|));
    } else {
      AllSpaceAppend(s, t);
    }
  }

  lemma SliceAppend(s: string, t: string, i: nat, j: nat)
    requires i <= j <= |s|
    ensures (s + t)[i..j] == s[i..j]
  {
  }

  lemma SpacesAfter(s: string, t: string)
    requires AllSpace(t)
    ensures forall j :: |s| <= j < |s + t| ==> IsSpace((s + t)[j])
  {
    assert forall j :: |s| <= j < |s + t| ==> (s + t)[j] == t[j - |s|];
  }

  lemma AllSpaceAppend(s: string, t: string)
    requires AllSpace(s) && AllSpace(t)
    ensures AllSpace(s + t)
  {
    assert forall i :: 0 <= i < |s| ==> (s + t)[i] == s[i];
    SpacesAfter(s, t);
  }

  /** Text after a non-blank `s` leaves its leading whitespace run alone. */
  lemma {:induction false} SkipSpaceAppend(s: string, t: string, i: nat)
    requires i <= |s| && SkipSpace(s, i) < |s|
    ensures SkipSpace(s + t, i) == SkipSpace(s, i)
    decreases |s| - i
  {
    assert (s + t)[i] == s[i];
    if IsSpace(s[i]) {
      SkipSpaceAppend(s, t, i + 1);
    }
  }

  /** A whitespace run ending at `e` is dropped whole. */
  lemma {:induction false} KeptEndSpaces(s: string, a: nat, m: nat, e: nat)
    requires a <= m <= e <= |s|
    requires forall j :: m <= j < e ==> IsSpace(s[j])
    ensures KeptEnd(s, a, e) == KeptEnd(s, a, m)
    decreases e
  {
    if m < e {
      KeptEndSpaces(s, a, m, e - 1);
    }
  }

  /** Within `s`, dropping trailing whitespace does not look at what follows. */
  lemma {:induction false} KeptEndAppend(s: string, t: string, a: nat, e: nat)
    requires a <= e <= |s|
    ensures KeptEnd(s + t, a, e) == KeptEnd(s, a, e)
    decreases e
  {
    assert a < e ==> (s + t)[e - 1] == s[e - 1];
    if a < e && IsSpace(s[e - 1]) {
      KeptEndAppend(s, t, a, e - 1);
    }
  }

  lemma StripOfStripped(s: string)
    requires IsStripped(s)
    ensures Strip(s) == s
  {
    if s != [] {
      assert LeadingSpace(s) == 0;
      assert KeptEnd(s, 0, |s|) == |s|;
    }
  }

  lemma StripIdempotent(s: string)
    ensures Strip(Strip(s)) == Strip(s)
  {
    StripOfStripped(Strip(s));
  }

  /** `s.lstrip(c)`: drop every leading occurrence of the character `c`. */
  function StripLeading(s: string, c: char): (r: string)
    ensures |r| <= |s| && r == s[|s| - |r|..]
    ensures forall i :: 0 <= i < |s| - |r| ==> s[i] == c
    ensures r == [] || r[0] != c
    decreases |s|
  {
    if |s| > 0 && s[0] == c then StripLeading(s[1..], c) else s
  }

  // ---------------------------------------------------------------------------
  // Prefixes, suffixes and substrings
  // ---------------------------------------------------------------------------

  predicate StartsWith(s: string, p: string) {
    |p| <= |s| && s[..|p|] == p
  }

  predicate EndsWith(s: string, p: string) {
    |p| <= |s| && s[|s| - |p|..] == p
  }

  predicate OccursAt(s: string, p: string, i: nat) {
    i + |p| <= |s| && s[i..i + |p|] == p
  }

  predicate Occurs(s: string, p: string) {
    exists i: nat | i <= |s| :: OccursAt(s, p, i)
  }

  /** `s.find(p)`, with `|s|` standing for "not found". */
  function FindSub(s: string, p: string): (i: nat)
    requires p != []
    ensures i <= |s|
    ensures i < |s| ==> OccursAt(s, p, i)
    ensures forall j: nat :: j < i ==> !OccursAt(s, p, j)
    ensures i == |s| ==> !Occurs(s, p)
  {
    FindSubFrom(s, p, 0)
  }

  /** The first occurrence of `p` at or after index `k`. */
  function FindSubFrom(s: string, p: string, k: nat): (i: nat)
    requires p != [] && k <= |s|
    ensures k <= i <= |s|
    ensures i < |s| ==> OccursAt(s, p, i)
    ensures forall j: nat :: k <= j < i ==> !OccursAt(s, p, j)
    ensures i == |s| ==> forall j: nat :: k <= j ==> !OccursAt(s, p, j)
    decreases |s| - k
  {
    if k + |p| > |s| then |s|
    else if s[k..k + |p|] == p then k
    else FindSubFrom(s, p, k + 1)
  }

  /** `s.find(c)` for a single character, with `|s|` standing for "not found". */
  function FindChar(s: string, c: char): (i: nat)
    ensures i <= |s|
    ensures i < |s| ==> s[i] == c
    ensures c !in s[..i]
    decreases |s|
  {
    if |s| == 0 || s[0] == c then 0
    else
      var j := FindChar(s[1..], c);
      assert s[..j + 1] == [s[0]] + s[1..][..j];
      1 + j
  }

  lemma FindCharAfter(a: string, c: char, b: string)
    requires c !in a
    ensures FindChar(a + [c] + b, c) == |a|
  {
    var s := a + [c] + b;
    var i := FindChar(s, c);
    assert s[|a|] == c;
    assert s[..|a|] == a;
  }

  lemma FindCharAbsent(a: string, c: char)
    requires c !in a
    ensures FindChar(a, c) == |a|
  {
    assert a[..|a|] == a;
  }

  // ---------------------------------------------------------------------------
  // split(sep) and split(sep, n)
  // ---------------------------------------------------------------------------

  /** `sep.join(parts)` for a one-character separator. */
  function Join(parts: seq<string>, sep: char): string
    requires |parts| >= 1
  {
    if |parts| == 1 then parts[0] else parts[0] + [sep] + Join(parts[1..], sep)
  }

  lemma JoinStartsWithFirst(parts: seq<string>, sep: char)
    requires |parts| >= 1
    ensures StartsWith(Join(parts, sep), parts[0])
  {
    var s := Join(parts, sep);
    if |parts| > 1 {
      assert s == parts[0] + ([sep] + Join(parts[1..], sep));
    }
    assert s[..|parts[0]|] == parts[0];
  }

  /** `s.split(sep)`: the maximal separator-free pieces of `s`, in order. */
  function Split(s: string, sep: char): (parts: seq<string>)
    ensures |parts| >= 1
    ensures forall i :: 0 <= i < |parts| ==> sep !in parts[i]
    ensures Join(parts, sep) == s
    decreases |s|
  {
    var i := FindChar(s, sep);
    if i == |s| then
      assert s[..i] == s;
      [s]
    else
      var rest := Split(s[i + 1..], sep);
      assert s == s[..i] + [sep] + s[i + 1..];
      [s[..i]] + rest
  }

  /** `split` undoes `join` when no piece contains the separator. */
  lemma {:induction false} SplitOfJoin(parts: seq<string>, sep: char)
    requires |parts| >= 1
    requires forall i :: 0 <= i < |parts| ==> sep !in parts[i]
    ensures Split(Join(parts, sep), sep) == parts
    decreases |parts|
  {
    if |parts| == 1 {
      FindCharAbsent(parts[0], sep);
      assert parts[0][..|parts[0]|] == parts[0];
    } else {
      var s := Join(parts, sep);
      FindCharAfter(parts[0], sep, Join(parts[1..], sep));
      assert s[..|parts[0]|] == parts[0];
      assert s[|parts[0]| + 1..] == Join(parts[1..], sep);
      SplitOfJoin(parts[1..], sep);
    }
  }

  /** The first piece of `split(sep)` is everything before the first separator. */
  lemma SplitFirst(a: string, rest: string, sep: char)
    requires sep !in a
    requires rest == [] || rest[0] == sep
    ensures Split(a + rest, sep)[0] == a
  {
    var s := a + rest;
    if rest == [] {
      FindCharAbsent(s, sep);
      assert s[..|s|] == a;
    } else {
      assert s == a + [sep] + rest[1..];
      FindCharAfter(a, sep, rest[1..]);
      assert s[..|a|] == a;
    }
  }

  /** `s.split(sep, n)`: at most `n` splits, the last piece keeps any further separators. */
  function SplitMax(s: string, sep: char, n: nat): (parts: seq<string>)
    ensures 1 <= |parts| <= n + 1
    ensures Join(parts, sep) == s
    ensures forall i :: 0 <= i < |parts| - 1 ==> sep !in parts[i]
    ensures |parts| < n + 1 ==> sep !in parts[|parts| - 1]
    decreases n
  {
    var i := FindChar(s, sep);
    if n == 0 || i == |s| then
      assert i == |s| ==> s[..i] == s;
      [s]
    else
      var rest := SplitMax(s[i + 1..], sep, n - 1);
      assert s == s[..i] + [sep] + s[i + 1..];
      [s[..i]] + rest
  }

  // ---------------------------------------------------------------------------
  // splitlines()
  // ---------------------------------------------------------------------------

  /** The line boundaries of Python's `str.splitlines()`. */
  predicate IsLineBreak(c: char) {
    || c == '\n' || c == '\r' || c == '\U{000B}' || c == '\U{000C}' || c == '\U{001C}'
    || c == '\U{001D}' || c == '\U{001E}' || c == '\U{0085}' || c == '\U{2028}' || c == '\U{2029}'
  }

  predicate NoLineBreak(s: string) {
    forall i :: 0 <= i < |s| ==> !IsLineBreak(s[i])
  }

  /** The first line boundary at or after index `i` (`|s|` if there is none). */
  function BreakFrom(s: string, i: nat): (k: nat)
    requires i <= |s|
    ensures i <= k <= |s|
    ensures k < |s| ==> IsLineBreak(s[k])
    ensures forall j :: i <= j < k ==> !IsLineBreak(s[j])
    decreases |s| - i
  {
    if i == |s| || IsLineBreak(s[i]) then i else BreakFrom(s, i + 1)
  }

  /** Where the first line of `s` stops: its first boundary character, or `|s|`. */
  function FindLineBreak(s: string): (i: nat)
    ensures i <= |s|
    ensures i < |s| ==> IsLineBreak(s[i])
    ensures forall j :: 0 <= j < i ==> !IsLineBreak(s[j])
    ensures NoLineBreak(s[..i])
  {
    var i := BreakFrom(s, 0);
    assert forall j :: 0 <= j < i ==> s[..i][j] == s[j];
    i
  }

  /** Searching `p + s` from `|p| + i` is searching `s` from `i`. */
  lemma {:induction false} BreakFromShift(p: string, s: string, i: nat)
    requires i <= |s|
    ensures BreakFrom(p + s, |p| + i) == |p| + BreakFrom(s, i)
    decreases |s| - i
  {
    assert i < |s| ==> (p + s)[|p| + i] == s[i];
    if i < |s| && !IsLineBreak(s[i]) {
      BreakFromShift(p, s, i + 1);
    }
  }

  /** A search that finds a boundary inside `s` does not look at what follows. */
  lemma {:induction false} BreakFromAppend(s: string, q: string, i: nat)
    requires i <= |s| && BreakFrom(s, i) < |s|
    ensures BreakFrom(s + q, i) == BreakFrom(s, i)
    decreases |s| - i
  {
    assert (s + q)[i] == s[i];
    if !IsLineBreak(s[i]) {
      BreakFromAppend(s, q, i + 1);
    }
  }

  /** A search that runs through all of `s` goes on into `q`. */
  lemma {:induction false} BreakFromThrough(s: string, q: string, i: nat)
    requires i <= |s| && BreakFrom(s, i) == |s|
    ensures BreakFrom(s + q, i) == |s| + BreakFrom(q, 0)
    decreases |s| - i
  {
    if i == |s| {
      BreakFromShift(s, q, 0);
    } else {
      assert (s + q)[i] == s[i];
      BreakFromThrough(s, q, i + 1);
    }
  }

  /** Where the first line's boundary ends: after `"\r\n"`, after another
      single boundary character, or at the end of a text without boundary. */
  function LineEnd(s: string): (e: nat)
    ensures FindLineBreak(s) <= e <= |s|
    ensures s != [] ==> e > 0
  {
    var i := FindLineBreak(s);
    if i == |s| then |s|
    else if s[i] == '\r' && i + 1 < |s| && s[i + 1] == '\n' then i + 2
    else i + 1
  }

  /** `s.splitlines()`: the lines of `s` without their boundaries; `"\r\n"`
      counts as one boundary and a final boundary opens no extra empty line. */
  function SplitLines(s: string): (lines: seq<string>)
    ensures forall i :: 0 <= i < |lines| ==> NoLineBreak(lines[i])
    decreases |s|
  {
    if s == [] then [] else [s[..FindLineBreak(s)]] + SplitLines(s[LineEnd(s)..])
  }

  /** Lines joined with `"\n"` split back into the same lines. */
  lemma {:induction false} SplitLinesOfJoin(lines: seq<string>)
    requires |lines| >= 1
    requires forall i :: 0 <= i < |lines| ==> NoLineBreak(lines[i])
    requires lines[|lines| - 1] != []
    ensures SplitLines(Join(lines, '\n')) == lines
    decreases |lines|
  {
    var s := Join(lines, '\n');
    var first := lines[0];
    if |lines| == 1 {
      assert s[..|s|] == s;
    } else {
      var rest := Join(lines[1..], '\n');
      assert s == first + ['\n'] + rest;
      var i := FindLineBreak(s);
      assert s[|first|] == '\n';
      assert s[..|first|] == first;
      assert s[..i] == first;
      assert s[i + 1..] == rest;
      SplitLinesOfJoin(lines[1..]);
    }
  }

  // ---------------------------------------------------------------------------
  // replace(old, new)
  // ---------------------------------------------------------------------------

  /** `s.replace(p, r)` for a non-empty `p`: occurrences found scanning left to
      right, without overlap, each replaced by `r`. A text without the
      pattern's first character is returned unchanged. */
  function ReplaceAll(s: string, p: string, r: string): (t: string)
    requires p != []
    ensures p[0] !in s ==> t == s
    decreases |s|
  {
    if |s| < |p| then s
    else if s[..|p|] == p then r + ReplaceAll(s[|p|..], p, r)
    else
      assert s == [s[0]] + s[1..];
      [s[0]] + ReplaceAll(s[1..], p, r)
  }

  /** A text that does not contain the pattern is returned unchanged. */
  lemma {:induction false} ReplaceAbsent(s: string, p: string, r: string)
    requires p != []
    requires !Occurs(s, p)
    ensures ReplaceAll(s, p, r) == s
    decreases |s|
  {
    if |s| >= |p| {
      assert !OccursAt(s, p, 0);
      assert s[..|p|] != p;
      assert !Occurs(s[1..], p) by {
        forall m: nat | OccursAt(s[1..], p, m) ensures OccursAt(s, p, m + 1) {
          assert s[1..][m..m + |p|] == s[m + 1..m + 1 + |p|];
        }
      }
      ReplaceAbsent(s[1..], p, r);
      assert s == [s[0]] + s[1..];
    }
  }

  /** A prefix free of the pattern's first character is copied unchanged and
      the scan goes on right after it. */
  lemma {:induction false} ReplacePlainPrefix(a: string, s: string, p: string, r: string)
    requires p != [] && p[0] !in a
    ensures ReplaceAll(a + s, p, r) == a + ReplaceAll(s, p, r)
    decreases |a|
  {
    if a != [] {
      var t := a + s;
      if |t| >= |p| {
        assert t[0] != p[0];
        assert t[1..] == a[1..] + s;
        ReplacePlainPrefix(a[1..], s, p, r);
        assert a == [a[0]] + a[1..];
      } else {
        ReplaceShort(s, p, r);
      }
    } else {
      assert a + s == s;
    }
  }

  /** The first occurrence after plain text is replaced, and the scan goes on
      after it. */
  lemma ReplaceAfterPlain(s: string, p: string, t: string, r: string)
    requires p != [] && p[0] !in s
    ensures ReplaceAll(s + p + t, p, r) == s + r + ReplaceAll(t, p, r)
  {
    assert s + p + t == s + (p + t);
    ReplacePlainPrefix(s, p + t, p, r);
    ReplaceAtFront(p, t, r);
  }

  /** Text that does not start with the pattern keeps its first character. */
  lemma ReplaceMissCons(c: char, t: string, p: string, r: string)
    requires p != []
    requires |[c] + t| >= |p| ==> ([c] + t)[..|p|] != p
    ensures ReplaceAll([c] + t, p, r) == [c] + ReplaceAll(t, p, r)
  {
    var s := [c] + t;
    if |s| < |p| {
      ReplaceShort(t, p, r);
    } else {
      assert s[1..] == t;
    }
  }

  lemma ReplaceShort(s: string, p: string, r: string)
    requires p != [] && |s| < |p|
    ensures ReplaceAll(s, p, r) == s
  {
  }

  /** An occurrence at the front is replaced and the scan resumes after it. */
  lemma ReplaceAtFront(p: string, s: string, r: string)
    requires p != []
    ensures ReplaceAll(p + s, p, r) == r + ReplaceAll(s, p, r)
  {
    assert (p + s)[..|p|] == p;
    assert (p + s)[|p|..] == s;
  }

  // ---------------------------------------------------------------------------
  // Decimal numbers: int(x) and f"{n:02d}"
  // ---------------------------------------------------------------------------

  predicate IsDigit(c: char) {
    '0' <= c <= '9'
  }

  predicate AllDigits(s: string) {
    forall i :: 0 <= i < |s| ==> IsDigit(s[i])
  }

  function DigitValue(c: char): nat
    requires IsDigit(c)
  {
    c as int - '0' as int
  }

  function DigitChar(d: nat): (c: char)
    requires d < 10
    ensures IsDigit(c) && DigitValue(c) == d
  {
    ('0' as int + d) as char
  }

  /** The value of a string of decimal digits, read left to right. */
  function DecimalValue(s: string): nat
    requires AllDigits(s)
    decreases |s|
  {
    if s == [] then 0 else 10 * DecimalValue(s[..|s| - 1]) + DigitValue(s[|s| - 1])
  }

  /** `int(s)` restricted to plain decimal digits: `None` stands for the `ValueError`. */
  function ParseNat(s: string): Option<nat> {
    if s != [] && AllDigits(s) then Some(DecimalValue(s)) else None
  }

  /** `str(n)` for a natural number. */
  function NatToDecimal(n: nat): (s: string)
    ensures s != [] && AllDigits(s)
    decreases n
  {
    if n < 10 then [DigitChar(n)] else NatToDecimal(n / 10) + [DigitChar(n % 10)]
  }

  lemma {:induction false} ParseNatToDecimal(n: nat)
    ensures ParseNat(NatToDecimal(n)) == Some(n)
    decreases n
  {
    var s := NatToDecimal(n);
    if n < 10 {
      assert s[..|s| - 1] == [];
      assert DecimalValue(s) == 10 * DecimalValue([]) + DigitValue(s[0]);
    } else {
      ParseNatToDecimal(n / 10);
      assert s[..|s| - 1] == NatToDecimal(n / 10);
    }
  }

  /** `f"{n:02d}"`: at least two digits, zero-padded on the left. */
  function Pad2(n: nat): string {
    if n < 10 then ['0', DigitChar(n)] else NatToDecimal(n)
  }

  /** The padded form has two digits or more, and `int` reads `n` back from it. */
  lemma Pad2Parses(n: nat)
    ensures |Pad2(n)| >= 2 && AllDigits(Pad2(n))
    ensures ParseNat(Pad2(n)) == Some(n)
  {
    if n < 10 {
      var s := Pad2(n);
      assert s[..1] == ['0'];
      assert s[..1][..0] == [];
      assert DecimalValue(s[..1]) == 10 * DecimalValue([]) + DigitValue('0');
      assert DecimalValue(s) == 10 * DecimalValue(s[..1]) + DigitValue(s[1]);
    } else {
      ParseNatToDecimal(n);
      ParseNatToDecimal(n / 10);
    }
  }

  // ---------------------------------------------------------------------------
  // lower()
  // ---------------------------------------------------------------------------

  function LowerChar(c: char): char {
    if 'A' <= c <= 'Z' then (c as int + 32) as char else c
  }

  /** `s.lower()` on the ASCII letters. */
  function Lower(s: string): (r: string)
    ensures |r| == |s|
    ensures forall i :: 0 <= i < |s| ==> r[i] == LowerChar(s[i])
  {
    seq(|s|, i requires 0 <= i < |s| => LowerChar(s[i]))
  }
}
