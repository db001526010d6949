/** The URL handling of the Screenshots-to-PDF tab (`ScreenshotToPDFFrame.run`
    in Trace_v1.py): the text box becomes a list of URLs, and each URL names
    its PDF after its host part. The browser that prints the pages is not
    modelled. */
module ScreenshotPdf {
  import opened Wrappers
  import opened Text

  /** `[line.strip() for line in lines if line.strip()]`. */
  function KeepNonBlank(lines: seq<string>): (urls: seq<string>)
    ensures |urls| <= |lines|
    ensures forall i :: 0 <= i < |urls| ==> urls[i] != [] && IsStripped(urls[i])
    decreases |lines|
  {
    if lines == [] then []
    else
      var line := Strip(lines[0]);
      if line == [] then KeepNonBlank(lines[1..]) else [line] + KeepNonBlank(lines[1..])
  }

  /** Stripping keeps a piece of the line, so it cannot introduce a line break. */
  lemma StripNoLineBreak(s: string)
    requires NoLineBreak(s)
    ensures NoLineBreak(Strip(s))
  {
  }

  lemma {:induction false} KeepNonBlankNoLineBreak(lines: seq<string>)
    requires forall i :: 0 <= i < |lines| ==> NoLineBreak(lines[i])
    ensures forall i :: 0 <= i < |KeepNonBlank(lines)| ==> NoLineBreak(KeepNonBlank(lines)[i])
    decreases |lines|
  {
    if lines != [] {
      KeepNonBlankNoLineBreak(lines[1..]);
      StripNoLineBreak(lines[0]);
    }
  }

  /** The URL list read from the text box: its lines, each stripped, blank ones
      dropped, in their original order. */
  function ParseUrls(raw: string): (urls: seq<string>)
    ensures forall i :: 0 <= i < |urls| ==> urls[i] != [] && IsStripped(urls[i]) && NoLineBreak(urls[i])
  {
    var lines := SplitLines(Strip(raw));
    KeepNonBlankNoLineBreak(lines);
    KeepNonBlank(lines)
  }

  lemma {:induction false} KeepNonBlankOfClean(urls: seq<string>)
    requires forall i :: 0 <= i < |urls| ==> urls[i] != [] && IsStripped(urls[i])
    ensures KeepNonBlank(urls) == urls
    decreases |urls|
  {
    if urls != [] {
      var rest := urls[1..];
      assert forall i :: 0 <= i < |rest| ==> rest[i] == urls[i + 1];
      KeepNonBlankOfClean(rest);
      KeepNonBlankCons(urls[0], rest);
      assert urls == [urls[0]] + rest;
    }
  }

  lemma KeepNonBlankCons(url: string, rest: seq<string>)
    requires url != [] && IsStripped(url)
    ensures KeepNonBlank([url] + rest) == [url] + KeepNonBlank(rest)
  {
    StripOfStripped(url);
    assert ([url] + rest)[1..] == rest;
  }

  /** Filtering a concatenation filters each part. */
  lemma {:induction false} KeepNonBlankConcat(a: seq<string>, b: seq<string>)
    ensures KeepNonBlank(a + b) == KeepNonBlank(a) + KeepNonBlank(b)
    decreases |a|
  {
    if a != [] {
      assert (a + b)[0] == a[0];
      assert (a + b)[1..] == a[1..] + b;
      KeepNonBlankConcat(a[1..], b);
      if Strip(a[0]) != [] {
        assert KeepNonBlank(a + b) == [Strip(a[0])] + KeepNonBlank(a[1..] + b);
        assert KeepNonBlank(a) == [Strip(a[0])] + KeepNonBlank(a[1..]);
      }
    } else {
      assert a + b == b;
    }
  }

  /** One line contributes its stripped text, or nothing when that is empty. */
  lemma KeepNonBlankSingle(line: string)
    ensures KeepNonBlank([line]) == if Strip(line) == [] then [] else [Strip(line)]
  {
    assert [line][1..] == [];
  }

  /** Lines that strip to the same text contribute the same. */
  lemma KeepNonBlankSameStrip(x: string, y: string, rest: seq<string>)
    requires Strip(x) == Strip(y)
    ensures KeepNonBlank([x] + rest) == KeepNonBlank([y] + rest)
  {
    assert ([x] + rest)[1..] == rest == ([y] + rest)[1..];
  }

  /** A line break at the front opens an empty line, which is dropped. */
  lemma BreakFront(c: char, s: string)
    requires IsLineBreak(c)
    ensures KeepNonBlank(SplitLines([c] + s)) == KeepNonBlank(SplitLines(s))
  {
    var t := [c] + s;
    EmptyFirstLine(t);
    if c == '\r' && s != [] && s[0] == '\n' {
      BreakEnd(c, s);
      DropCons(c, s, 1);
      EmptyFirstLine(s);
    } else {
      BreakEnd(c, s);
      DropCons(c, s, 0);
    }
  }

  /** A text that starts with a boundary has an empty first line, which is dropped. */
  lemma EmptyFirstLine(t: string)
    requires t != [] && IsLineBreak(t[0])
    ensures KeepNonBlank(SplitLines(t)) == KeepNonBlank(SplitLines(t[LineEnd(t)..]))
  {
    assert FindLineBreak(t) == 0;
    assert t[..0] == [];
    var rest := SplitLines(t[LineEnd(t)..]);
    assert SplitLines(t) == [[]] + rest;
    assert ([[]] + rest)[1..] == rest;
  }

  /** The boundary at the front of `[c] + s` is `"\r\n"` or `c` alone. */
  lemma BreakEnd(c: char, s: string)
    requires IsLineBreak(c)
    ensures LineEnd([c] + s) == if c == '\r' && s != [] && s[0] == '\n' then 2 else 1
  {
    var t := [c] + s;
    assert t[0] == c;
    assert s != [] ==> t[1] == s[0];
    assert FindLineBreak(t) == 0;
  }

  /** A character that is not a line break extends the first line by one. */
  lemma LineCons(c: char, s: string)
    requires !IsLineBreak(c)
    ensures FindLineBreak([c] + s) == 1 + FindLineBreak(s)
    ensures LineEnd([c] + s) == 1 + LineEnd(s)
    ensures ([c] + s)[..1 + FindLineBreak(s)] == [c] + s[..FindLineBreak(s)]
    ensures ([c] + s)[1 + LineEnd(s)..] == s[LineEnd(s)..]
  {
    var t := [c] + s;
    assert t[0] == c;
    assert BreakFrom(t, 0) == BreakFrom(t, 1);
    BreakFromShift([c], s, 0);
    var i := FindLineBreak(s);
    assert i < |s| ==> t[i + 1] == s[i];
    assert i + 1 < |s| ==> t[i + 2] == s[i + 1];
    TakeCons(c, s, i);
    DropCons(c, s, LineEnd(s));
  }

  lemma TakeCons(c: char, s: string, i: nat)
    requires i <= |s|
    ensures ([c] + s)[..1 + i] == [c] + s[..i]
  {
  }

  lemma DropCons(c: char, s: string, e: nat)
    requires e <= |s|
    ensures ([c] + s)[1 + e..] == s[e..]
  {
  }

  /** Whitespace other than a line break at the front joins the first line,
      whose stripped text it does not change. */
  lemma BlankFront(c: char, s: string)
    requires IsSpace(c) && !IsLineBreak(c)
    ensures KeepNonBlank(SplitLines([c] + s)) == KeepNonBlank(SplitLines(s))
  {
    var t := [c] + s;
    var i := FindLineBreak(s);
    var e := LineEnd(s);
    LineCons(c, s);
    var rest := SplitLines(s[e..]);
    assert SplitLines(t) == [[c] + s[..i]] + rest;
    StripSpaceBefore(c, s[..i]);
    if s == [] {
      assert rest == [];
      KeepNonBlankSameStrip([c], [], []);
    } else {
      assert SplitLines(s) == [s[..i]] + rest;
      KeepNonBlankSameStrip([c] + s[..i], s[..i], rest);
    }
  }

  /** Leading whitespace of the text box changes no URL. */
  lemma {:induction false} LeadingBlankIgnored(p: string, s: string)
    requires AllSpace(p)
    ensures KeepNonBlank(SplitLines(p + s)) == KeepNonBlank(SplitLines(s))
    decreases |p|
  {
    if p != [] {
      var tail := p[1..] + s;
      assert p + s == [p[0]] + tail;
      assert AllSpace(p[1..]);
      if IsLineBreak(p[0]) {
        BreakFront(p[0], tail);
      } else {
        BlankFront(p[0], tail);
      }
      LeadingBlankIgnored(p[1..], s);
    } else {
      assert p + s == s;
    }
  }

  /** A whitespace-only text has no URL line. */
  lemma BlankLinesDropped(q: string)
    requires AllSpace(q)
    ensures KeepNonBlank(SplitLines(q)) == []
  {
    LeadingBlankIgnored(q, []);
    assert q + [] == q;
  }

  /** The first line break of `s + q` is that of `s`, or comes after all of `s`. */
  lemma FindLineBreakConcat(s: string, q: string)
    ensures FindLineBreak(s) < |s| ==> FindLineBreak(s + q) == FindLineBreak(s)
    ensures FindLineBreak(s) == |s| ==> FindLineBreak(s + q) == |s| + FindLineBreak(q)
  {
    if FindLineBreak(s) < |s| {
      BreakFromAppend(s, q, 0);
    } else {
      BreakFromThrough(s, q, 0);
    }
  }

  /** The first line of `s + q` ends where that of `s` does, except that a
      text without a break runs into `q`, and a final `\r` of `s` merges with a
      leading `\n` of `q`. */
  lemma LineEndConcat(s: string, q: string)
    ensures FindLineBreak(s) == |s| ==> LineEnd(s + q) == |s| + LineEnd(q)
    ensures FindLineBreak(s) < |s| ==>
              LineEnd(s + q) == LineEnd(s) || (LineEnd(s) == |s| && LineEnd(s + q) == |s| + 1 <= |s + q|)
  {
    FindLineBreakConcat(s, q);
    var i := FindLineBreak(s);
    var t := s + q;
    if i == |s| {
      var m := FindLineBreak(q);
      assert m < |q| ==> t[|s| + m] == q[m];
      assert m + 1 < |q| ==> t[|s| + m + 1] == q[m + 1];
    } else {
      assert t[i] == s[i];
      assert i + 1 < |s| ==> t[i + 1] == s[i + 1];
    }
  }

  /** The URLs of a text: those of its first line, then those of the rest. */
  lemma UrlsCons(s: string)
    requires s != []
    ensures KeepNonBlank(SplitLines(s)) ==
              KeepNonBlank([s[..FindLineBreak(s)]]) + KeepNonBlank(SplitLines(s[LineEnd(s)..]))
  {
    assert SplitLines(s) == [s[..FindLineBreak(s)]] + SplitLines(s[LineEnd(s)..]);
    KeepNonBlankConcat([s[..FindLineBreak(s)]], SplitLines(s[LineEnd(s)..]));
  }

  /** A text without a break, then whitespace: one line, stripping to the same. */
  lemma TrailingNoBreak(s: string, q: string)
    requires AllSpace(q) && s != [] && FindLineBreak(s) == |s|
    ensures KeepNonBlank(SplitLines(s + q)) == KeepNonBlank(SplitLines(s))
  {
    var m, e := FindLineBreak(q), LineEnd(q);
    calc {
      KeepNonBlank(SplitLines(s + q));
    == { UrlsCons(s + q); }
      KeepNonBlank([(s + q)[..FindLineBreak(s + q)]]) + KeepNonBlank(SplitLines((s + q)[LineEnd(s + q)..]));
    == { FirstLineThrough(s, q); }
      KeepNonBlank([s + q[..m]]) + KeepNonBlank(SplitLines(q[e..]));
    == { SpaceSlices(q, m, e); BlankLinesDropped(q[e..]); }
      KeepNonBlank([s + q[..m]]) + [];
    == { SpaceSlices(q, m, e); StripSpaceAfter(s, q[..m]); KeepNonBlankSameStrip(s + q[..m], s, []); }
      KeepNonBlank([s]) + [];
    == { OneLine(s); }
      KeepNonBlank(SplitLines(s));
    }
  }

  /** When `s` has no line break, the first line of `s + q` runs into `q`. */
  lemma FirstLineThrough(s: string, q: string)
    requires FindLineBreak(s) == |s|
    ensures (s + q)[..FindLineBreak(s + q)] == s + q[..FindLineBreak(q)]
    ensures (s + q)[LineEnd(s + q)..] == q[LineEnd(q)..]
  {
    FindLineBreakConcat(s, q);
    LineEndConcat(s, q);
    TakeAppend(s, q, FindLineBreak(q));
    DropBeyond(s, q, LineEnd(q));
  }

  lemma TakeAppend(s: string, q: string, m: nat)
    requires m <= |q|
    ensures (s + q)[..|s| + m] == s + q[..m]
  {
  }

  lemma DropBeyond(s: string, q: string, e: nat)
    requires e <= |q|
    ensures (s + q)[|s| + e..] == q[e..]
  {
  }

  lemma SpaceSlices(q: string, m: nat, e: nat)
    requires AllSpace(q) && m <= |q| && e <= |q|
    ensures AllSpace(q[..m]) && AllSpace(q[e..])
  {
    assert forall i :: 0 <= i < m ==> q[..m][i] == q[i];
    assert forall i :: 0 <= i < |q| - e ==> q[e..][i] == q[e + i];
  }

  /** A text without a line break is a single line. */
  lemma OneLine(s: string)
    requires s != [] && FindLineBreak(s) == |s|
    ensures KeepNonBlank(SplitLines(s)) == KeepNonBlank([s]) + []
  {
    UrlsCons(s);
    assert s[..|s|] == s;
    assert s[|s|..] == [];
  }

  /** A first line that ends in a break is not changed by what follows. */
  lemma FirstLineConcat(s: string, q: string)
    requires FindLineBreak(s) < |s|
    ensures (s + q)[..FindLineBreak(s + q)] == s[..FindLineBreak(s)]
  {
    var i := FindLineBreak(s);
    FindLineBreakConcat(s, q);
    assert (s + q)[..i] == s[..i];
  }

  /** After a first line that ends in a break comes the rest of `s` followed by
      `q`, or, when a final `\r` of `s` merges with a leading `\n` of `q`, the
      rest of `q`. */
  lemma RestAfterBreak(s: string, q: string)
    requires FindLineBreak(s) < |s|
    ensures || (s + q)[LineEnd(s + q)..] == s[LineEnd(s)..] + q
            || (q != [] && s[LineEnd(s)..] == [] && (s + q)[LineEnd(s + q)..] == q[1..])
  {
    LineEndConcat(s, q);
    if LineEnd(s + q) == LineEnd(s) {
      DropAppend(s, q, LineEnd(s));
    } else {
      DropPast(s, q);
    }
  }

  lemma DropAppend(s: string, q: string, e: nat)
    requires e <= |s|
    ensures (s + q)[e..] == s[e..] + q
  {
  }

  lemma DropPast(s: string, q: string)
    requires q != []
    ensures (s + q)[|s| + 1..] == q[1..]
  {
  }

  /** Trailing whitespace of the text box changes no URL. */
  lemma {:induction false} TrailingBlankIgnored(s: string, q: string)
    requires AllSpace(q)
    ensures KeepNonBlank(SplitLines(s + q)) == KeepNonBlank(SplitLines(s))
    decreases |s|
  {
    if s == [] {
      assert [] + q == q;
      BlankLinesDropped(q);
    } else if FindLineBreak(s) == |s| {
      TrailingNoBreak(s, q);
    } else {
      var rest := s[LineEnd(s)..];
      BreakInside(s, q);
      UrlsCons(s);
      RestAfterBreak(s, q);
      if (s + q)[LineEnd(s + q)..] == rest + q {
        TrailingBlankIgnored(rest, q);
      } else {
        assert AllSpace(q[1..]);
        BlankLinesDropped(q[1..]);
      }
    }
  }

  /** When `s` has a line break, `s + q` has the same first line. */
  lemma BreakInside(s: string, q: string)
    requires FindLineBreak(s) < |s|
    ensures KeepNonBlank(SplitLines(s + q)) ==
              KeepNonBlank([s[..FindLineBreak(s)]]) + KeepNonBlank(SplitLines((s + q)[LineEnd(s + q)..]))
  {
    UrlsCons(s + q);
    FirstLineConcat(s, q);
  }

  /** Stripping the whole text first changes nothing: the URLs are exactly the
      lines of the text box, each stripped, the blank ones dropped, in order
      (`KeepNonBlankConcat` and `KeepNonBlankSingle` say what that filter keeps). */
  lemma ParseUrlsLines(raw: string)
    ensures ParseUrls(raw) == KeepNonBlank(SplitLines(raw))
  {
    var p, q := StripParts(raw);
    PaddingIgnored(p, Strip(raw), q);
  }

  /** Whitespace on both sides of a text changes no URL. */
  lemma PaddingIgnored(p: string, r: string, q: string)
    requires AllSpace(p) && AllSpace(q)
    ensures KeepNonBlank(SplitLines(p + r + q)) == KeepNonBlank(SplitLines(r))
  {
    assert p + r + q == p + (r + q);
    LeadingBlankIgnored(p, r + q);
    TrailingBlankIgnored(r, q);
  }

  lemma JoinFirst(parts: seq<string>, sep: char)
    requires |parts| >= 1 && parts[0] != []
    ensures Join(parts, sep) != [] && Join(parts, sep)[0] == parts[0][0]
  {
  }

  lemma {:induction false} JoinLast(parts: seq<string>, sep: char)
    requires |parts| >= 1 && parts[|parts| - 1] != []
    ensures Join(parts, sep) != []
    ensures Join(parts, sep)[|Join(parts, sep)| - 1] == parts[|parts| - 1][|parts[|parts| - 1]| - 1]
    decreases |parts|
  {
    if |parts| > 1 {
      JoinLast(parts[1..], sep);
    }
  }

  /** URLs entered one per line are read back exactly. */
  lemma ParseUrlsOfLines(urls: seq<string>)
    requires |urls| >= 1
    requires forall i :: 0 <= i < |urls| ==> urls[i] != [] && IsStripped(urls[i]) && NoLineBreak(urls[i])
    ensures ParseUrls(Join(urls, '\n')) == urls
  {
    var text := Join(urls, '\n');
    JoinFirst(urls, '\n');
    JoinLast(urls, '\n');
    StripOfStripped(text);
    SplitLinesOfJoin(urls);
    KeepNonBlankOfClean(urls);
  }

  /** A text box holding nothing but whitespace yields no URL. */
  lemma BlankTextNoUrls(raw: string)
    requires AllSpace(raw)
    ensures ParseUrls(raw) == []
  {
  }

  /** The number of `/` that come right before index `e` of `s`. */
  function SlashesBefore(s: string, e: nat): (n: nat)
    requires e <= |s|
    ensures n <= e
    ensures forall j :: e - n <= j < e ==> s[j] == '/'
    ensures n < e ==> s[e - n - 1] != '/'
    decreases e
  {
    if e > 0 && s[e - 1] == '/' then SlashesBefore(s, e - 1) + 1 else 0
  }

  /** `url.split('//')[-1]`: what follows the last `//`, the occurrences being
      found left to right without overlap. A run of `/` is therefore consumed
      in pairs from its start, so an even number of `/` precedes the tail
      (`"a///b"` gives `"/b"`). */
  function AfterLastDoubleSlash(url: string): (tail: string)
    ensures |tail| <= |url| && tail == url[|url| - |tail|..]
    ensures !Occurs(tail, "//")
    ensures FindSub(url, "//") == |url| ==> tail == url
    ensures FindSub(url, "//") < |url| ==>
              |tail| + 2 <= |url| && url[|url| - |tail| - 2..|url| - |tail|] == "//"
    ensures FindSub(url, "//") < |url| ==> SlashesBefore(url, |url| - |tail|) % 2 == 0
    decreases |url|
  {
    var i := FindSub(url, "//");
    if i == |url| then
      assert url[|url| - |url|..] == url;
      url
    else
      var tail := AfterLastDoubleSlash(url[i + 2..]);
      LastAfterFirst(url, i, tail);
      FirstRun(url, i);
      EvenRunAfterFirst(url, i + 2, url[i + 2..], |url| - i - 2 - |tail|);
      tail
  }

  /** The last part of a URL: the whole URL when it has no `"//"`, and
      otherwise a tail with a `"//"` just before it. */
  lemma AfterLastDoubleSlashCases(url: string)
    ensures !Occurs(url, "//") ==> AfterLastDoubleSlash(url) == url
    ensures Occurs(url, "//") ==>
              var tail := AfterLastDoubleSlash(url);
              |tail| + 2 <= |url| && url[|url| - |tail| - 2..|url| - |tail|] == "//"
  {
    var i := FindSub(url, "//");
    if i < |url| {
      assert i <= |url| && OccursAt(url, "//", i);
    }
  }

  /** The last part of the text after the first `"//"` at `i` is the last part
      of `url`: a tail of it, with `"//"` just before it. */
  lemma LastAfterFirst(url: string, i: nat, tail: string)
    requires OccursAt(url, "//", i)
    requires |tail| <= |url[i + 2..]| && tail == url[i + 2..][|url[i + 2..]| - |tail|..]
    requires FindSub(url[i + 2..], "//") == |url[i + 2..]| ==> tail == url[i + 2..]
    requires FindSub(url[i + 2..], "//") < |url[i + 2..]| ==>
               |tail| + 2 <= |url[i + 2..]|
               && url[i + 2..][|url[i + 2..]| - |tail| - 2..|url[i + 2..]| - |tail|] == "//"
    ensures |tail| <= |url| && tail == url[|url| - |tail|..]
    ensures |tail| + 2 <= |url| && url[|url| - |tail| - 2..|url| - |tail|] == "//"
  {
    SuffixOfSuffix(url, i + 2, tail);
    if FindSub(url[i + 2..], "//") < |url[i + 2..]| {
      PrecededInSuffix(url, i + 2, tail);
    } else {
      assert url[|url| - |tail| - 2..|url| - |tail|] == url[i..i + 2];
    }
  }

  /** The contract of `AfterLastDoubleSlash` determines it: a tail of a URL
      with `//` that holds no `//`, comes right after a `//`, and has an even
      number of `/` before it is the one the split yields. */
  lemma AfterLastDoubleSlashUnique(url: string, t: string)
    requires |t| + 2 <= |url| && t == url[|url| - |t|..]
    requires url[|url| - |t| - 2..|url| - |t|] == "//"
    requires !Occurs(t, "//") && SlashesBefore(url, |url| - |t|) % 2 == 0
    ensures AfterLastDoubleSlash(url) == t
  {
    FindSeesPair(url, |url| - |t| - 2);
    var tail := AfterLastDoubleSlash(url);
    SameTail(url, t, tail);
  }

  /** `find` reports a `//` when there is one. */
  lemma FindSeesPair(url: string, m: nat)
    requires m + 2 <= |url| && url[m..m + 2] == "//"
    ensures FindSub(url, "//") < |url|
  {
    assert OccursAt(url, "//", m);
  }

  /** Two tails that both meet the clauses of `AfterLastDoubleSlash` agree. */
  lemma SameTail(url: string, t: string, u: string)
    requires |t| + 2 <= |url| && t == url[|url| - |t|..]
    requires url[|url| - |t| - 2..|url| - |t|] == "//"
    requires !Occurs(t, "//") && SlashesBefore(url, |url| - |t|) % 2 == 0
    requires |u| + 2 <= |url| && u == url[|url| - |u|..]
    requires url[|url| - |u| - 2..|url| - |u|] == "//"
    requires !Occurs(u, "//") && SlashesBefore(url, |url| - |u|) % 2 == 0
    ensures t == u
  {
    PairChars(url, |url| - |t|);
    PairChars(url, |url| - |u|);
    TailPosition(url, |url| - |t|, |url| - |u|);
  }

  lemma PairChars(url: string, j: nat)
    requires 2 <= j <= |url| && url[j - 2..j] == "//"
    ensures url[j - 2] == '/' && url[j - 1] == '/'
  {
    assert url[j - 2..j][0] == url[j - 2] && url[j - 2..j][1] == url[j - 1];
  }

  /** Two places that both end a `//`, see no `//` after them and have an even
      number of `/` before them are the same place. */
  lemma TailPosition(url: string, j: nat, k: nat)
    requires 2 <= j <= |url| && 2 <= k <= |url|
    requires url[j - 2] == '/' && url[j - 1] == '/' && url[k - 2] == '/' && url[k - 1] == '/'
    requires !Occurs(url[j..], "//") && !Occurs(url[k..], "//")
    requires SlashesBefore(url, j) % 2 == 0 && SlashesBefore(url, k) % 2 == 0
    ensures j == k
  {
    PairSeenAfter(url, j, k - 2);
    PairSeenAfter(url, k, j - 2);
    SlashFlipsParity(url, j);
    SlashFlipsParity(url, k);
  }

  /** One more `/` before a place changes the parity of the run. */
  lemma SlashFlipsParity(url: string, k: nat)
    requires 1 <= k <= |url| && url[k - 1] == '/'
    ensures SlashesBefore(url, k) % 2 != SlashesBefore(url, k - 1) % 2
  {
  }

  /** A `//` at or after `j` is seen in `url[j..]`. */
  lemma PairSeenAfter(url: string, j: nat, m: nat)
    requires j <= |url|
    ensures j <= m && m + 2 <= |url| && url[m] == '/' && url[m + 1] == '/' ==> Occurs(url[j..], "//")
  {
    if j <= m && m + 2 <= |url| && url[m] == '/' && url[m + 1] == '/' {
      assert url[j..][m - j..m - j + 2] == "//";
      assert OccursAt(url[j..], "//", m - j);
    }
  }

  /** `file:///C:/x` is split after the first two slashes, so its host part is
      empty and its PDF is named by the case prefix alone. */
  lemma FileUrlHost()
    ensures AfterLastDoubleSlash("file:///C:/x") == "/C:/x"
    ensures HostPart("file:///C:/x") == ""
  {
    var url := "file:///C:/x";
    var t := "/C:/x";
    assert url[|url| - |t|..] == t;
    assert url[|url| - |t| - 2..|url| - |t|] == "//";
    forall i: nat | i <= |t| ensures !OccursAt(t, "//", i) {
      if i + 2 <= |t| {
        assert t[i..i + 2][0] == t[i] && t[i..i + 2][1] == t[i + 1];
      }
    }
    assert SlashesBefore(url, 4) == 0;
    assert SlashesBefore(url, 7) == 2;
    AfterLastDoubleSlashUnique(url, t);
    SplitFirst("", t, '/');
  }

  /** The scan resumes after the first `//`, which ends a run of exactly two
      `/`, so the slashes before the tail of the rest, counted in the whole
      URL, stay even. */
  lemma EvenRunAfterFirst(url: string, k: nat, d: string, pos: nat)
    requires k <= |url| && d == url[k..] && pos <= |d|
    requires SlashesBefore(url, k) == 2
    requires pos == 0 || SlashesBefore(d, pos) % 2 == 0
    ensures SlashesBefore(url, k + pos) % 2 == 0
  {
    SlashesShift(url, k, d, pos);
    var n := SlashesBefore(d, pos);
    if n == pos {
      EvenPlusTwo(n);
    }
  }

  lemma EvenPlusTwo(n: nat)
    requires n % 2 == 0
    ensures (n + 2) % 2 == 0
  {
  }

  /** The first `//` is not preceded by a `/`, or it would start one earlier. */
  lemma FirstRun(url: string, i: nat)
    requires i == FindSub(url, "//") && i < |url|
    ensures SlashesBefore(url, i + 2) == 2
  {
    assert url[i..i + 2] == "//";
    assert url[i] == '/' && url[i + 1] == '/';
    if i > 0 {
      assert !OccursAt(url, "//", i - 1);
    }
  }

  /** Counting slashes in a suffix `d` of `s` that starts at `k`: the count is
      the same unless it runs back to the start of `d`, where it goes on in `s`. */
  lemma {:induction false} SlashesShift(s: string, k: nat, d: string, pos: nat)
    requires k <= |s| && d == s[k..] && pos <= |d|
    ensures SlashesBefore(d, pos) < pos ==> SlashesBefore(s, k + pos) == SlashesBefore(d, pos)
    ensures SlashesBefore(d, pos) == pos ==> SlashesBefore(s, k + pos) == pos + SlashesBefore(s, k)
    decreases pos
  {
    if pos > 0 {
      assert d[pos - 1] == s[k + pos - 1];
      SlashesShift(s, k, d, pos - 1);
    }
  }

  lemma SuffixOfSuffix(s: string, j: nat, tail: string)
    requires j <= |s| && |tail| <= |s| - j && tail == s[j..][|s| - j - |tail|..]
    ensures tail == s[|s| - |tail|..]
  {
  }

  lemma PrecededInSuffix(s: string, j: nat, tail: string)
    requires j <= |s| && |tail| + 2 <= |s| - j
    requires s[j..][|s| - j - |tail| - 2..|s| - j - |tail|] == "//"
    ensures s[|s| - |tail| - 2..|s| - |tail|] == "//"
  {
    assert s[j..][|s| - j - |tail| - 2..|s| - j - |tail|] == s[|s| - |tail| - 2..|s| - |tail|];
  }

  /** `url.split('//')[-1].split('/')[0]`: the host part of a URL, which runs
      up to the first `/` after the last `//`, or to the end. */
  function HostPart(url: string): (host: string)
    ensures '/' !in host
    ensures StartsWith(AfterLastDoubleSlash(url), host)
    ensures var tail := AfterLastDoubleSlash(url);
      host == tail || (|host| < |tail| && tail[|host|] == '/')
  {
    var tail := AfterLastDoubleSlash(url);
    var parts := Split(tail, '/');
    JoinStartsWithFirst(parts, '/');
    assert |parts| > 1 ==> tail == parts[0] + ['/'] + Join(parts[1..], '/');
    parts[0]
  }

  /** The name the PDF of `url` is saved under: case prefix, host part, `.pdf`. */
  function PdfFileName(prefix: string, url: string): (name: string)
    ensures |name| == |prefix| + |HostPart(url)| + 4
    ensures name[..|prefix|] == prefix && name[|name| - 4..] == ".pdf"
    ensures name[|prefix|..|name| - 4] == HostPart(url)
  {
    var host := HostPart(url);
    var name := prefix + host + ".pdf";
    assert name[..|prefix|] == prefix;
    assert name[|prefix|..|name| - 4] == host;
    assert name[|name| - 4..] == ".pdf";
    name
  }

  lemma FindSubFirst(s: string, p: string, i: nat)
    requires p != [] && OccursAt(s, p, i)
    requires forall j: nat :: j < i ==> !OccursAt(s, p, j)
    ensures FindSub(s, p) == i
  {
  }

  lemma FirstDoubleSlash(scheme: string, tail: string)
    requires '/' !in scheme
    ensures FindSub(scheme + "//" + tail, "//") == |scheme|
  {
    var url := scheme + "//" + tail;
    assert url[|scheme|..|scheme| + 2] == "//";
    forall j: nat | j < |scheme| ensures !OccursAt(url, "//", j) {
      assert url[j] == scheme[j];
    }
    FindSubFirst(url, "//", |scheme|);
  }

  lemma AfterSchemeSeparator(scheme: string, tail: string)
    requires '/' !in scheme && !Occurs(tail, "//")
    ensures AfterLastDoubleSlash(scheme + "//" + tail) == tail
  {
    var url := scheme + "//" + tail;
    FirstDoubleSlash(scheme, tail);
    assert url[|scheme| + 2..] == tail;
    assert FindSub(tail, "//") == |tail|;
  }

  /** For a URL `scheme://host/path` whose scheme has no `/` and whose host and
      path hold no further `//`, the PDF is named after `host`. */
  lemma HostOfUrl(scheme: string, host: string, rest: string)
    requires '/' !in scheme && '/' !in host
    requires rest == [] || rest[0] == '/'
    requires !Occurs(host + rest, "//")
    ensures HostPart(scheme + "//" + host + rest) == host
  {
    assert scheme + "//" + host + rest == scheme + "//" + (host + rest);
    AfterSchemeSeparator(scheme, host + rest);
    SplitFirst(host, rest, '/');
  }

  /** Why "Run" stops before any page is printed. */
  datatype RunError = MissingUrls

  /** The part of `run` before the browser starts: refuse an empty URL list,
      otherwise one PDF file name per URL, in order. */
  function PlanRun(raw: string, prefix: string): (r: Result<seq<string>, RunError>)
    ensures r.Failure? <==> ParseUrls(raw) == []
    ensures r.Success? ==> |r.value| == |ParseUrls(raw)|
    ensures r.Success? ==> forall i :: 0 <= i < |r.value| ==>
              r.value[i] == PdfFileName(prefix, ParseUrls(raw)[i])
  {
    var urls := ParseUrls(raw);
    if urls == [] then Failure(MissingUrls)
    else Success(seq(|urls|, i requires 0 <= i < |urls| => PdfFileName(prefix, urls[i])))
  }
}
