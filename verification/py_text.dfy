/** The handful of Python `str` methods the system_profiler parser relies on:
    `strip()`, `strip(chars)`, `split(sep)`, `split()` and `replace(pat, "")`. */
module PyText {

  /** Python's `str.isspace()` for one character: the characters `strip()` and
      `split()` treat as whitespace. */
  predicate IsSpace(c: char)
  {
    || ('\t' <= c <= '\r')
    || ('\U{1C}' <= c <= ' ')
    || c == '\U{85}' || c == '\U{A0}' || c == '\U{1680}'
    || ('\U{2000}' <= c <= '\U{200A}')
    || c == '\U{2028}' || c == '\U{2029}' || c == '\U{202F}' || c == '\U{205F}' || c == '\U{3000}'
  }

  predicate NotSpace(c: char)
  {
    !IsSpace(c)
  }

  /** Every character of `s` satisfies `p`. */
  predicate All(s: string, p: char -> bool)
  {
    forall i :: 0 <= i < |s| ==> p(s[i])
  }

  /** Length of the longest prefix of `s` whose characters satisfy `p`. */
  function LeadCount(s: string, p: char -> bool): (n: nat)
    ensures n <= |s|
    ensures All(s[..n], p)
    ensures n < |s| ==> !p(s[n])
  {
    if |s| == 0 || !p(s[0]) then 0
    else
      var n := 1 + LeadCount(s[1..], p);
      assert forall i :: 1 <= i < n ==> s[..n][i] == s[1..][..n - 1][i - 1];
      n
  }

  /** Start of the longest suffix of `s` whose characters satisfy `p`. */
  function TrailStart(s: string, p: char -> bool): (m: nat)
    ensures m <= |s|
    ensures All(s[m..], p)
    ensures m > 0 ==> !p(s[m - 1])
  {
    if |s| == 0 || !p(s[|s| - 1]) then |s|
    else
      var m := TrailStart(s[..|s| - 1], p);
      assert forall i :: 0 <= i < |s| - 1 - m ==> s[m..][i] == s[..|s| - 1][m..][i];
      m
  }

  /** Python `s.strip(chars)` with `junk` telling which characters are in
      `chars`: drops the junk at both ends and nothing else. */
  function Trim(s: string, junk: char -> bool): (r: string)
    ensures r == [] || (!junk(r[0]) && !junk(r[|r| - 1]))
    ensures exists i :: 0 <= i <= |s| - |r| && Trims(s, r, i, junk)
  {
    var n := LeadCount(s, junk);
    if n == |s| then
      assert Trims(s, [], 0, junk) by {
        assert s[..n] == s;
      }
      []
    else
      var m := TrailStart(s, junk);
      assert n < m;
      var r := s[n..m];
      assert Trims(s, r, n, junk) by {
        assert s[n..n + |r|] == r;
        assert s[n + |r|..] == s[m..];
      }
      r
  }

  /** `r` sits at offset `i` in `s` with only junk around it. */
  ghost predicate Trims(s: string, r: string, i: nat, junk: char -> bool)
  {
    && i + |r| <= |s|
    && s[i..i + |r|] == r
    && All(s[..i], junk)
    && All(s[i + |r|..], junk)
  }

  /** `LeadCount` is the only length whose prefix is all `p` and which stops
      at a character outside `p`. */
  lemma {:induction false} LeadCountUnique(s: string, p: char -> bool, n: nat)
    requires n <= |s| && All(s[..n], p)
    requires n < |s| ==> !p(s[n])
    ensures LeadCount(s, p) == n
    decreases |s|
  {
    if n > 0 {
      assert p(s[..n][0]);
      assert forall i :: 1 <= i < n ==> s[..n][i] == s[1..][..n - 1][i - 1];
      LeadCountUnique(s[1..], p, n - 1);
    }
  }

  /** `TrailStart` is the only start whose suffix is all `p` and which is
      preceded by a character outside `p`. */
  lemma {:induction false} TrailStartUnique(s: string, p: char -> bool, m: nat)
    requires m <= |s| && All(s[m..], p)
    requires m > 0 ==> !p(s[m - 1])
    ensures TrailStart(s, p) == m
    decreases |s|
  {
    if m < |s| {
      assert p(s[m..][|s| - 1 - m]);
      var u := s[..|s| - 1];
      assert forall i :: 0 <= i < |u| - m ==> u[m..][i] == s[m..][i];
      TrailStartUnique(u, p, m);
    }
  }

  /** Trimming takes off exactly the junk around a core that neither starts
      nor ends with junk. With `Trim`'s own contract this fixes the result on
      every input. */
  lemma TrimEnds(a: string, core: string, b: string, junk: char -> bool)
    requires All(a, junk) && All(b, junk)
    requires |core| > 0 && !junk(core[0]) && !junk(core[|core| - 1])
    ensures Trim(a + core + b, junk) == core
  {
    var s := a + core + b;
    assert s[..|a|] == a;
    LeadCountUnique(s, junk, |a|);
    assert s[|a| + |core|..] == b;
    TrailStartUnique(s, junk, |a| + |core|);
    assert s[|a|..|a| + |core|] == core;
  }

  /** Python `s.strip()`. */
  function Strip(s: string): string
  {
    Trim(s, IsSpace)
  }

  /** Python `s.strip("()")`. */
  function StripParens(s: string): string
  {
    Trim(s, IsParen)
  }

  predicate IsParen(c: char)
  {
    c == '(' || c == ')'
  }

  /** Trimming what is already trimmed changes nothing. */
  lemma TrimIdempotent(s: string, junk: char -> bool)
    ensures Trim(Trim(s, junk), junk) == Trim(s, junk)
  {
    var r := Trim(s, junk);
    if |r| > 0 {
      assert LeadCount(r, junk) == 0;
      assert TrailStart(r, junk) == |r|;
      assert r[0..|r|] == r;
    }
  }

  /** Python `s.startswith(p)`, one character at a time. */
  predicate StartsWith(s: string, p: string)
  {
    |p| == 0 || (|s| > 0 && s[0] == p[0] && StartsWith(s[1..], p[1..]))
  }

  /** `startswith` is the prefix relation on sequences. */
  lemma {:induction false} StartsWithIsPrefix(s: string, p: string)
    ensures StartsWith(s, p) <==> p <= s
  {
    if |p| > 0 && |s| > 0 {
      StartsWithIsPrefix(s[1..], p[1..]);
      assert p == [p[0]] + p[1..];
      assert s == [s[0]] + s[1..];
    }
  }

  /** Python `sep.join(parts)`. */
  function Join(parts: seq<string>, sep: char): string
  {
    if |parts| == 0 then ""
    else if |parts| == 1 then parts[0]
    else parts[0] + [sep] + Join(parts[1..], sep)
  }

  lemma JoinUnfold(parts: seq<string>, sep: char)
    requires |parts| > 1
    ensures Join(parts, sep) == parts[0] + ([sep] + Join(parts[1..], sep))
  {
  }

  /** A joined list starts with its first piece. */
  lemma JoinStarts(parts: seq<string>, sep: char)
    requires |parts| > 0
    ensures parts[0] <= Join(parts, sep)
  {
  }

  /** A joined list ends with its last piece. */
  lemma {:induction false} JoinEnds(parts: seq<string>, sep: char)
    requires |parts| > 0
    ensures var j := Join(parts, sep); var p := parts[|parts| - 1];
            |p| <= |j| && j[|j| - |p|..] == p
  {
    if |parts| > 1 {
      JoinEnds(parts[1..], sep);
      var rest := Join(parts[1..], sep);
      var j := Join(parts, sep);
      assert j == parts[0] + [sep] + rest;
      assert j[|j| - |rest|..] == rest;
    }
  }

  /** The first position of `c` in `s`, or |s| when `c` does not occur. */
  function IndexOf(s: string, c: char): (i: nat)
    ensures i <= |s|
    ensures c !in s[..i]
    ensures i < |s| ==> s[i] == c
    ensures i == |s| <==> c !in s
  {
    var i := LeadCount(s, x => x != c);
    assert i == |s| ==> s[..i] == s;
    i
  }

  /** `IndexOf` is the only position with the properties it promises. */
  lemma IndexOfUnique(s: string, c: char, n: nat)
    requires n <= |s|
    requires c !in s[..n]
    requires n < |s| ==> s[n] == c
    ensures IndexOf(s, c) == n
  {
    var m := IndexOf(s, c);
    NotInPrefix(s, c, n, m);
    NotInPrefix(s, c, m, n);
  }

  /** A character absent from a prefix is absent from each of its positions. */
  lemma NotInPrefix(s: string, c: char, n: nat, k: nat)
    ensures n <= |s| && c !in s[..n] && k < n ==> s[k] != c
  {
    if n <= |s| && k < n {
      assert s[..n][k] == s[k];
    }
  }

  /** Python `s.split(sep)` for a one-character separator: the pieces between
      separators, empty pieces included. */
  function SplitOn(s: string, sep: char): (parts: seq<string>)
    ensures |parts| >= 1
    ensures |parts| > 1 <==> sep in s
    ensures forall i :: 0 <= i < |parts| ==> sep !in parts[i]
    ensures Join(parts, sep) == s
    decreases |s|
  {
    var i := IndexOf(s, sep);
    if i == |s| then
      assert s[..i] == s;
      [s]
    else
      var rest := SplitOn(s[i + 1..], sep);
      assert s == s[..i] + [sep] + s[i + 1..];
      var parts := [s[..i]] + rest;
      assert parts[1..] == rest;
      parts
  }

  /** There is one more piece than there are separators. */
  lemma {:induction false} SplitOnCount(s: string, sep: char)
    ensures |SplitOn(s, sep)| == multiset(s)[sep] + 1
    decreases |s|
  {
    var i := IndexOf(s, sep);
    if i == |s| {
      assert s[..i] == s;
      assert sep !in s;
    } else {
      var pre, post := s[..i], s[i + 1..];
      assert |SplitOn(s, sep)| == 1 + |SplitOn(post, sep)|;
      SplitOnCount(post, sep);
      MultisetSplit(s, i, sep);
    }
  }

  lemma MultisetSplit(s: string, i: nat, sep: char)
    requires i < |s| && s[i] == sep && sep !in s[..i]
    ensures multiset(s)[sep] == 1 + multiset(s[i + 1..])[sep]
  {
    var pre, post := s[..i], s[i + 1..];
    assert s == pre + ([sep] + post);
    assert multiset(s) == multiset(pre) + multiset([sep] + post);
    assert multiset([sep] + post) == multiset{sep} + multiset(post);
  }

  /** Splitting a joined list gives the list back, when no piece holds the
      separator. */
  lemma {:induction false} SplitJoin(parts: seq<string>, sep: char)
    requires |parts| >= 1
    requires forall i :: 0 <= i < |parts| ==> sep !in parts[i]
    ensures SplitOn(Join(parts, sep), sep) == parts
  {
    var s := Join(parts, sep);
    var w := parts[0];
    if |parts| == 1 {
      assert s[..|w|] == w;
      IndexOfUnique(s, sep, |w|);
    } else {
      var j := Join(parts[1..], sep);
      SplitJoin(parts[1..], sep);
      assert s == w + [sep] + j;
      assert s[..|w|] == w;
      assert s[|w|] == sep;
      IndexOfUnique(s, sep, |w|);
      assert s[|w| + 1..] == j;
      assert parts == [w] + parts[1..];
    }
  }

  /** Concatenation of a list of strings. */
  function Concat(ws: seq<string>): string
  {
    if |ws| == 0 then "" else ws[0] + Concat(ws[1..])
  }

  /** The non-whitespace characters of `s`, in order. */
  function DropSpaces(s: string): string
  {
    if |s| == 0 then ""
    else (if IsSpace(s[0]) then "" else [s[0]]) + DropSpaces(s[1..])
  }

  lemma {:induction false} DropSpacesAppend(a: string, b: string)
    ensures DropSpaces(a + b) == DropSpaces(a) + DropSpaces(b)
  {
    if |a| > 0 {
      assert (a + b)[1..] == a[1..] + b;
      DropSpacesAppend(a[1..], b);
    } else {
      assert a + b == b;
    }
  }

  lemma {:induction false} DropSpacesAll(s: string, keep: bool)
    requires keep ==> All(s, NotSpace)
    requires !keep ==> All(s, IsSpace)
    ensures DropSpaces(s) == if keep then s else ""
  {
    if |s| > 0 {
      DropSpacesAll(s[1..], keep);
    }
  }

  /** A word as `split()` yields it: non-empty and free of whitespace. */
  predicate IsWord(w: string)
  {
    |w| > 0 && All(w, NotSpace)
  }

  /** Python `s.split()`: the maximal whitespace-free runs of `s`, in order;
      leading and trailing whitespace give no empty pieces. */
  function Words(s: string): (ws: seq<string>)
    ensures forall i :: 0 <= i < |ws| ==> IsWord(ws[i])
    ensures Concat(ws) == DropSpaces(s)
    decreases |s|
  {
    var n := LeadCount(s, IsSpace);
    if n == |s| then
      WordsNone(s);
      []
    else
      var t := s[n..];
      var k := LeadCount(t, NotSpace);
      var rest := Words(t[k..]);
      WordsStep(s, n, k);
      WordsCombine(s, t[..k], rest, t[k..]);
      [t[..k]] + rest
  }

  /** A word in front of the words of the remainder accounts for all of `s`. */
  lemma WordsCombine(s: string, w: string, rest: seq<string>, tail: string)
    requires IsWord(w) && forall i :: 0 <= i < |rest| ==> IsWord(rest[i])
    requires Concat(rest) == DropSpaces(tail)
    requires DropSpaces(s) == w + DropSpaces(tail)
    ensures forall i :: 0 <= i < |[w] + rest| ==> IsWord(([w] + rest)[i])
    ensures Concat([w] + rest) == DropSpaces(s)
  {
    assert ([w] + rest)[1..] == rest;
  }

  lemma WordsNone(s: string)
    requires LeadCount(s, IsSpace) == |s|
    ensures DropSpaces(s) == ""
  {
    assert s[..|s|] == s;
    DropSpacesAll(s, false);
  }

  /** One word peeled off the front, after the leading whitespace. */
  lemma WordsStep(s: string, n: nat, k: nat)
    requires n == LeadCount(s, IsSpace) < |s|
    requires k == LeadCount(s[n..], NotSpace)
    ensures IsWord(s[n..][..k])
    ensures DropSpaces(s) == s[n..][..k] + DropSpaces(s[n..][k..])
  {
    var t := s[n..];
    assert NotSpace(t[0]);
    DropLeading(s, n, false);
    DropLeading(t, k, true);
  }

  /** Splitting `s` after a prefix that is all kept or all dropped. */
  lemma DropLeading(s: string, n: nat, keep: bool)
    requires n <= |s|
    requires keep ==> All(s[..n], NotSpace)
    requires !keep ==> All(s[..n], IsSpace)
    ensures DropSpaces(s) == (if keep then s[..n] else "") + DropSpaces(s[n..])
  {
    assert s == s[..n] + s[n..];
    DropSpacesAppend(s[..n], s[n..]);
    DropSpacesAll(s[..n], keep);
  }

  /** Leading whitespace, then a word, then nothing or whitespace: `split()`
      yields that word first and then the words of the remainder. With
      `WordsBlank` this fixes `split()` on every input. */
  lemma WordsCons(sp: string, w: string, rest: string)
    requires All(sp, IsSpace) && IsWord(w)
    requires |rest| > 0 ==> IsSpace(rest[0])
    ensures Words(sp + w + rest) == [w] + Words(rest)
  {
    PeelSpaces(sp, w + rest);
    PeelWord(w, rest);
    assert sp + w + rest == sp + (w + rest);
  }

  /** Whitespace in front of a non-space character is exactly the leading run. */
  lemma PeelSpaces(sp: string, x: string)
    requires All(sp, IsSpace) && |x| > 0 && !IsSpace(x[0])
    ensures LeadCount(sp + x, IsSpace) == |sp| < |sp + x|
    ensures (sp + x)[|sp|..] == x
  {
    var s := sp + x;
    assert s[..|sp|] == sp;
    assert s[|sp|] == x[0];
    LeadCountUnique(s, IsSpace, |sp|);
  }

  /** A word followed by nothing or whitespace is exactly the leading run of
      non-space characters. */
  lemma PeelWord(w: string, rest: string)
    requires IsWord(w)
    requires |rest| > 0 ==> IsSpace(rest[0])
    ensures LeadCount(w + rest, NotSpace) == |w|
    ensures (w + rest)[..|w|] == w && (w + rest)[|w|..] == rest
  {
    var t := w + rest;
    assert t[..|w|] == w;
    LeadCountUnique(t, NotSpace, |w|);
  }

  /** A blank text has no words. */
  lemma WordsBlank(sp: string)
    requires All(sp, IsSpace)
    ensures Words(sp) == []
  {
    assert sp[..|sp|] == sp;
    LeadCountUnique(sp, IsSpace, |sp|);
  }

  /** Round trip: joining words with single spaces, after any leading
      whitespace, and splitting again gives the words back. */
  lemma {:induction false} WordsJoin(sp: string, ws: seq<string>)
    requires All(sp, IsSpace)
    requires forall i :: 0 <= i < |ws| ==> IsWord(ws[i])
    ensures Words(sp + Join(ws, ' ')) == ws
    decreases |ws|
  {
    if |ws| <= 1 {
      WordsJoinShort(sp, ws);
    } else {
      WordsJoin(" ", ws[1..]);
      WordsJoinStep(sp, ws);
    }
  }

  lemma WordsJoinShort(sp: string, ws: seq<string>)
    requires All(sp, IsSpace) && |ws| <= 1
    requires |ws| == 1 ==> IsWord(ws[0])
    ensures Words(sp + Join(ws, ' ')) == ws
  {
    if |ws| == 0 {
      assert sp + Join(ws, ' ') == sp;
      WordsBlank(sp);
    } else {
      assert sp + Join(ws, ' ') == sp + ws[0] + "";
      WordsCons(sp, ws[0], "");
      WordsBlank("");
    }
  }

  /** The first word comes off, and the rest is a joined list after one space. */
  lemma WordsJoinStep(sp: string, ws: seq<string>)
    requires All(sp, IsSpace) && |ws| > 1 && IsWord(ws[0])
    requires Words(" " + Join(ws[1..], ' ')) == ws[1..]
    ensures Words(sp + Join(ws, ' ')) == ws
  {
    JoinCons(sp, ws);
    WordsCons(sp, ws[0], " " + Join(ws[1..], ' '));
    ConsHead(ws);
  }

  lemma JoinCons(sp: string, ws: seq<string>)
    requires |ws| > 1
    ensures sp + Join(ws, ' ') == sp + ws[0] + (" " + Join(ws[1..], ' '))
  {
  }

  lemma ConsHead<T>(xs: seq<T>)
    requires |xs| > 0
    ensures xs == [xs[0]] + xs[1..]
  {
  }

  /** Whether `pat` occurs in `s`. */
  predicate Occurs(s: string, pat: string)
  {
    pat <= s || (|s| > 0 && Occurs(s[1..], pat))
  }

  /** Python `s.replace(pat, "")`: one left-to-right pass deleting
      non-overlapping occurrences; the text is unchanged exactly when `pat`
      does not occur in it. */
  function DeleteAll(s: string, pat: string): (r: string)
    requires |pat| > 0
    ensures |r| <= |s|
    ensures r == s <==> !Occurs(s, pat)
    decreases |s|
  {
    if |s| == 0 then s
    else if pat <= s then DeleteAll(s[|pat|..], pat)
    else
      assert s == [s[0]] + s[1..];
      [s[0]] + DeleteAll(s[1..], pat)
  }

  /** `replace` works left to right: text before the first occurrence of
      `pat` is kept, that occurrence is deleted, and the pass resumes right
      after it. With the unchanged-iff-absent clause of `DeleteAll` this
      fixes the result on every input. */
  lemma {:induction false} DeleteAllFirst(a: string, pat: string, b: string)
    requires |pat| > 0
    requires !Occurs(a + pat[..|pat| - 1], pat)
    ensures DeleteAll(a + pat + b, pat) == a + DeleteAll(b, pat)
    decreases |a|
  {
    if |a| == 0 {
      DeleteAllAtStart(a, pat, b);
    } else {
      NoEarlyMatch(a, pat, b);
      DeleteAllFirst(a[1..], pat, b);
      KeepHead(a, DeleteAll(a + pat + b, pat), DeleteAll(a[1..] + pat + b, pat), DeleteAll(b, pat));
    }
  }

  /** Sequence bookkeeping for one kept character. */
  lemma KeepHead(a: string, whole: string, tail: string, d: string)
    requires |a| > 0 && whole == [a[0]] + tail && tail == a[1..] + d
    ensures whole == a + d
  {
    assert a == [a[0]] + a[1..];
  }

  /** An occurrence at the very start is deleted and the pass resumes after it. */
  lemma DeleteAllAtStart(a: string, pat: string, b: string)
    requires |pat| > 0 && |a| == 0
    ensures DeleteAll(a + pat + b, pat) == a + DeleteAll(b, pat)
  {
    assert a + pat + b == pat + b;
    assert (pat + b)[|pat|..] == b;
  }

  /** Before the first occurrence the pass keeps one character and moves on. */
  lemma NoEarlyMatch(a: string, pat: string, b: string)
    requires |pat| > 0 && |a| > 0
    requires !Occurs(a + pat[..|pat| - 1], pat)
    ensures DeleteAll(a + pat + b, pat) == [a[0]] + DeleteAll(a[1..] + pat + b, pat)
    ensures !Occurs(a[1..] + pat[..|pat| - 1], pat)
  {
    var s := a + pat + b;
    var x := a + pat[..|pat| - 1];
    assert !(pat <= s) by {
      assert !(pat <= x);
      assert s[..|pat|] == x[..|pat|];
    }
    assert s[1..] == a[1..] + pat + b;
    assert x[1..] == a[1..] + pat[..|pat| - 1];
  }
}
