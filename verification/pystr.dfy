/** The Python `str` operations the modelled code relies on: `split` on a
    one-character separator, `join`, `replace`, `strip`, slicing with Python's
    index normalisation, and the code-point lexicographic order used by `<`,
    `<=` and `sorted`. */
module PyStr {

  // ---------------------------------------------------------------- split / join

  /** `s.split(sep)` for a one-character separator: the maximal separator-free
      runs of `s`, including empty ones at the ends and between adjacent separators. */
  function Split(s: string, sep: char): (parts: seq<string>)
    ensures |parts| >= 1
    ensures forall i :: 0 <= i < |parts| ==> sep !in parts[i]
    ensures sep in s <==> |parts| >= 2
    ensures sep !in s ==> parts == [s]
  {
    if |s| == 0 then [""]
    else
      var rest := Split(s[1..], sep);
      if s[0] == sep then [""] + rest
      else
        assert [s[0]] + s[1..] == s;
        [[s[0]] + rest[0]] + rest[1..]
  }

  /** `sep.join(parts)`. */
  function Join(parts: seq<string>, sep: string): string
  {
    if |parts| == 0 then ""
    else if |parts| == 1 then parts[0]
    else parts[0] + sep + Join(parts[1..], sep)
  }

  /** Total length of a list of strings. */
  function TotalLength(parts: seq<string>): nat
  {
    if |parts| == 0 then 0 else |parts[0]| + TotalLength(parts[1..])
  }

  /** Joining with the separator a string was split on gives the string back. */
  lemma {:induction false} JoinSplit(s: string, sep: char)
    ensures Join(Split(s, sep), [sep]) == s
  {
    if |s| > 0 {
      var rest := Split(s[1..], sep);
      JoinSplit(s[1..], sep);
      if s[0] == sep {
        assert Split(s, sep)[1..] == rest;
      } else if |rest| >= 2 {
        assert Split(s, sep)[1..] == rest[1..];
      }
    }
  }

  /** `k` non-empty parts are joined with exactly `k - 1` separators, and the
      parts themselves are copied whole. */
  lemma {:induction false} JoinLength(parts: seq<string>, sep: string)
    requires |parts| > 0
    ensures |Join(parts, sep)| == TotalLength(parts) + (|parts| - 1) * |sep|
  {
    if |parts| > 1 {
      JoinLength(parts[1..], sep);
    }
  }

  /** Appending one more part appends the separator and the part. */
  lemma {:induction false} JoinSnoc(parts: seq<string>, x: string, sep: string)
    requires |parts| > 0
    ensures Join(parts + [x], sep) == Join(parts, sep) + sep + x
  {
    if |parts| == 1 {
      assert (parts + [x])[1..] == [x];
    } else {
      assert (parts + [x])[1..] == parts[1..] + [x];
      JoinSnoc(parts[1..], x, sep);
    }
  }

  /** The first part opens the joined string and the last part closes it. */
  lemma {:induction false} JoinEnds(parts: seq<string>, sep: string)
    requires |parts| > 0
    ensures var j := Join(parts, sep);
      |parts[0]| <= |j| && j[..|parts[0]|] == parts[0]
      && |parts[|parts| - 1]| <= |j| && j[|j| - |parts[|parts| - 1]|..] == parts[|parts| - 1]
  {
    if |parts| > 1 {
      JoinEnds(parts[1..], sep);
      var tail := Join(parts[1..], sep);
      assert Join(parts, sep) == parts[0] + (sep + tail);
    }
  }

  /** `s.split(sep)[-1]`: the text after the last separator, or all of `s`. */
  function LastField(s: string, sep: char): (r: string)
    ensures sep !in r
    ensures |r| <= |s|
  {
    var parts := Split(s, sep);
    LengthOfParts(s, sep);
    parts[|parts| - 1]
  }

  lemma {:induction false} LengthOfParts(s: string, sep: char)
    ensures forall i :: 0 <= i < |Split(s, sep)| ==> |Split(s, sep)[i]| <= |s|
  {
    if |s| > 0 {
      LengthOfParts(s[1..], sep);
    }
  }

  /** What precedes the last separator does not affect the last field. */
  lemma {:induction false} LastFieldAppend(a: string, b: string, sep: char)
    requires sep in b
    ensures LastField(a + b, sep) == LastField(b, sep)
  {
    if |a| > 0 {
      var s := a + b;
      assert s[1..] == a[1..] + b;
      LastFieldAppend(a[1..], b, sep);
      var rest := Split(s[1..], sep);
      assert sep in s[1..];
      assert |rest| >= 2;
      assert Split(s, sep)[|Split(s, sep)| - 1] == rest[|rest| - 1];
    } else {
      assert a + b == b;
    }
  }

  /** The last field is a suffix of `s`, preceded by the separator whenever `s`
      contains one. */
  lemma {:induction false} LastFieldShape(s: string, sep: char)
    ensures var r := LastField(s, sep);
      (sep !in s ==> r == s)
      && (sep in s ==> |r| < |s| && s[|s| - |r| - 1] == sep && s[|s| - |r|..] == r)
  {
    if |s| > 0 && sep in s {
      var t := s[1..];
      if sep in t {
        LastFieldShape(t, sep);
        LastFieldAppend([s[0]], t, sep);
        assert [s[0]] + t == s;
      } else {
        assert s[0] == sep;
        assert Split(s, sep) == [""] + [t];
      }
    }
  }

  /** The last field equals a separator-free `t` exactly when `s` is `t` or ends
      with the separator followed by `t`. */
  lemma LastFieldIs(s: string, sep: char, t: string)
    requires sep !in t
    ensures LastField(s, sep) == t <==> s == t || (|s| > |t| && s[|s| - |t| - 1..] == [sep] + t)
  {
    LastFieldShape(s, sep);
    if |s| > |t| && s[|s| - |t| - 1..] == [sep] + t {
      var head := s[..|s| - |t| - 1];
      assert s == head + ([sep] + t);
      LastFieldAppend(head, [sep] + t, sep);
      assert Split([sep] + t, sep) == [""] + [t];
    }
    if LastField(s, sep) == t && sep in s {
      assert s[|s| - |t| - 1..] == [s[|s| - |t| - 1]] + s[|s| - |t|..];
    }
  }

  // ---------------------------------------------------------------- replace

  /** `s.replace(pat, rep)`: every non-overlapping occurrence of `pat`, scanning
      from the left, is replaced by `rep`. */
  function Replace(s: string, pat: string, rep: string): (r: string)
    requires |pat| > 0
    ensures pat[0] !in s ==> r == s
    ensures forall c :: c in r ==> c in s || c in rep
    decreases |s|
  {
    if |s| < |pat| then s
    else if s[..|pat|] == pat then rep + Replace(s[|pat|..], pat, rep)
    else [s[0]] + Replace(s[1..], pat, rep)
  }

  /** Where no occurrence starts, the first character is copied. */
  lemma ReplaceSkip(s: string, pat: string, rep: string)
    requires 0 < |pat| <= |s| && s[..|pat|] != pat
    ensures Replace(s, pat, rep) == [s[0]] + Replace(s[1..], pat, rep)
  {
  }

  /** A trailing occurrence is replaced, and nothing before it changes when the
      text before it cannot start an occurrence. */
  lemma ReplaceTrailing(x: string, pat: string, rep: string)
    requires |pat| > 0 && pat[0] !in x
    ensures Replace(x + pat, pat, rep) == x + rep
  {
    ReplaceConcat(x, pat, pat, rep);
    ReplaceWhole(pat, rep);
  }

  /** An occurrence at the start is replaced, and the rest is handled after it. */
  lemma ReplaceLead(pat: string, y: string, rep: string)
    requires |pat| > 0
    ensures Replace(pat + y, pat, rep) == rep + Replace(y, pat, rep)
  {
    var s := pat + y;
    assert s[..|pat|] == pat && s[|pat|..] == y;
  }

  /** The pattern alone becomes the replacement. */
  lemma ReplaceWhole(pat: string, rep: string)
    requires |pat| > 0
    ensures Replace(pat, pat, rep) == rep
  {
    assert pat[|pat|..] == "";
  }

  /** Replacing within a string, and then within a string put after it, when the
      first string cannot overlap an occurrence across the boundary. */
  lemma {:induction false} ReplaceConcat(x: string, y: string, pat: string, rep: string)
    requires |pat| > 0 && pat[0] !in x
    ensures Replace(x + y, pat, rep) == x + Replace(y, pat, rep)
  {
    if |x| > 0 {
      var s := x + y;
      assert s[1..] == x[1..] + y;
      ReplaceConcat(x[1..], y, pat, rep);
      assert x == [x[0]] + x[1..];
      if |s| >= |pat| {
        assert s[..|pat|] != pat by {
          assert s[..|pat|][0] == x[0];
        }
        assert Replace(s, pat, rep) == [s[0]] + Replace(s[1..], pat, rep);
      } else {
        assert Replace(y, pat, rep) == y;
      }
    } else {
      assert x + y == y;
    }
  }

  lemma NotInConcat<T>(c: T, a: seq<T>, b: seq<T>)
    requires c !in a && c !in b
    ensures c !in a + b
  {
  }

  lemma ConcatAssoc(a: string, b: string, d: string)
    ensures a + (b + d) == a + b + d
  {
  }

  lemma ReplaceSkipHead(c: char, y: string, pat: string, rep: string)
    requires 0 < |pat| <= |y| + 1 && ([c] + y)[..|pat|] != pat
    ensures Replace([c] + y, pat, rep) == [c] + Replace(y, pat, rep)
  {
    var u := [c] + y;
    assert u[1..] == y;
    ReplaceSkip(u, pat, rep);
  }

  /** A look-alike `c rest` of the pattern's length that starts like the
      pattern but differs from it is kept, and the occurrence after it is
      replaced. */
  lemma ReplaceNearMiss(x: string, c: char, rest: string, pat: string, rep: string)
    requires |pat| == |rest| + 1 && pat[0] == c && [c] + rest != pat && c !in rest && c !in x
    ensures Replace(x + ([c] + rest) + pat, pat, rep) == x + ([c] + rest) + rep
  {
    ConcatAssoc(x, [c] + rest, pat);
    ReplaceConcat(x, [c] + rest + pat, pat, rep);
    ConcatAssoc([c], rest, pat);
    assert ([c] + (rest + pat))[..|pat|] == [c] + rest;
    ReplaceSkipHead(c, rest + pat, pat, rep);
    ReplaceTrailing(rest, pat, rep);
    ConcatAssoc([c], rest, rep);
    ConcatAssoc(x, [c] + rest, rep);
  }

  // ---------------------------------------------------------------- newlines

  /** What reading a file in text mode returns for the characters stored in it:
      with universal newlines, each `\r\n` and each remaining `\r` becomes `\n`. */
  function TranslateNewlines(s: string): (r: string)
    ensures '\r' !in r
    ensures '\r' !in s ==> r == s
    ensures |r| <= |s|
    decreases |s|
  {
    if |s| == 0 then ""
    else if s[0] == '\r' then
      if |s| > 1 && s[1] == '\n' then "\n" + TranslateNewlines(s[2..])
      else "\n" + TranslateNewlines(s[1..])
    else
      assert s == [s[0]] + s[1..];
      [s[0]] + TranslateNewlines(s[1..])
  }

  /** Translation works piece by piece, unless a piece ends in `\r` whose `\n`
      is in the next piece. */
  lemma {:induction false} TranslateNewlinesConcat(a: string, b: string)
    requires a == [] || a[|a| - 1] != '\r'
    ensures TranslateNewlines(a + b) == TranslateNewlines(a) + TranslateNewlines(b)
    decreases |a|
  {
    if |a| == 0 {
      assert a + b == b;
    } else {
      var s := a + b;
      var n := if a[0] == '\r' && a[1] == '\n' then 2 else 1;
      var head := TranslateNewlines(a[..n]);
      assert s[n..] == a[n..] + b;
      TranslateHead(a, n);
      TranslateHead(s, n);
      assert s[..n] == a[..n];
      TranslateNewlinesConcat(a[n..], b);
      ConcatAssoc(head, TranslateNewlines(a[n..]), TranslateNewlines(b));
    }
  }

  /** The translation of a string is that of its first line-ending unit, then
      that of the rest. */
  lemma {:induction false} TranslateHead(s: string, n: nat)
    requires 0 < n <= |s|
    requires n == (if s[0] == '\r' && |s| > 1 && s[1] == '\n' then 2 else 1)
    ensures TranslateNewlines(s) == TranslateNewlines(s[..n]) + TranslateNewlines(s[n..])
  {
    var t := s[..n];
    assert t[n..] == [];
    assert TranslateNewlines(t[n..]) == [];
    if n == 2 {
      assert t[0] == '\r' && t[1] == '\n';
      assert TranslateNewlines(t) == "\n";
    } else if s[0] == '\r' {
      assert TranslateNewlines(t) == "\n";
    } else {
      assert TranslateNewlines(t) == [s[0]];
    }
  }

  /** Translation is `s.replace("\r\n", "\n").replace("\r", "\n")`. */
  lemma {:induction false} TranslateNewlinesReplace(s: string)
    ensures TranslateNewlines(s) == Replace(Replace(s, "\r\n", "\n"), "\r", "\n")
    decreases |s|
  {
    if |s| < 2 {
      assert Replace(s, "\r\n", "\n") == s;
      if |s| == 1 {
        assert s == [s[0]] + "";
        if s[0] == '\r' {
          ReplaceLead("\r", "", "\n");
        } else {
          ReplaceSkipHead(s[0], "", "\r", "\n");
        }
      }
    } else if s[..2] == "\r\n" {
      var x := Replace(s[2..], "\r\n", "\n");
      assert Replace(s, "\r\n", "\n") == "\n" + x;
      ReplaceSkipHead('\n', x, "\r", "\n");
      TranslateNewlinesReplace(s[2..]);
    } else {
      var x := Replace(s[1..], "\r\n", "\n");
      assert Replace(s, "\r\n", "\n") == [s[0]] + x;
      if s[0] == '\r' {
        ReplaceLead("\r", x, "\n");
      } else {
        ReplaceSkipHead(s[0], x, "\r", "\n");
      }
      TranslateNewlinesReplace(s[1..]);
    }
  }

  // ---------------------------------------------------------------- strip

  /** `s.lstrip(ch)`. */
  function StripLeft(s: string, ch: char): (r: string)
    ensures |r| <= |s| && r == s[|s| - |r|..]
    ensures forall k :: 0 <= k < |s| - |r| ==> s[k] == ch
    ensures r == [] || r[0] != ch
  {
    if |s| > 0 && s[0] == ch then StripLeft(s[1..], ch) else s
  }

  /** `s.rstrip(ch)`. */
  function StripRight(s: string, ch: char): (r: string)
    ensures |r| <= |s| && r == s[..|r|]
    ensures forall k :: |r| <= k < |s| ==> s[k] == ch
    ensures r == [] || r[|r| - 1] != ch
  {
    if |s| > 0 && s[|s| - 1] == ch then StripRight(s[..|s| - 1], ch) else s
  }

  /** `s.strip(ch)`: the infix left after removing every leading and every
      trailing `ch`; other characters, such as tabs for `ch == ' '`, stay. */
  function Strip(s: string, ch: char): (r: string)
    ensures |r| <= |s|
    ensures r == [] || (r[0] != ch && r[|r| - 1] != ch)
  {
    var left := StripLeft(s, ch);
    var r := StripRight(left, ch);
    assert r == [] || r[0] == left[0];
    r
  }

  /** `r` occurs in `s` starting at index `lead`. */
  predicate OccursAt(s: string, lead: int, r: string) {
    0 <= lead && lead + |r| <= |s| && s[lead..lead + |r|] == r
  }

  /** What `strip` keeps is an infix of `s`, and everything around it is `ch`. */
  lemma StripInfix(s: string, ch: char)
    ensures var lead := |s| - |StripLeft(s, ch)|;
      && OccursAt(s, lead, Strip(s, ch))
      && (forall k :: 0 <= k < lead ==> s[k] == ch)
      && (forall k :: lead + |Strip(s, ch)| <= k < |s| ==> s[k] == ch)
  {
    assert Strip(s, ch) == StripRight(StripLeft(s, ch), ch);
    StripKeepsInfix(s, ch);
    StripDropsTail(s, ch);
  }

  lemma {:induction false} StripKeepsInfix(s: string, ch: char)
    ensures OccursAt(s, |s| - |StripLeft(s, ch)|, StripRight(StripLeft(s, ch), ch))
  {
    InfixOfSuffix(s, StripLeft(s, ch), StripRight(StripLeft(s, ch), ch));
  }

  lemma {:induction false} StripDropsTail(s: string, ch: char)
    ensures var r := Strip(s, ch);
      var lead := |s| - |StripLeft(s, ch)|;
      forall k :: lead + |r| <= k < |s| ==> s[k] == ch
  {
    var left := StripLeft(s, ch);
    var r := StripRight(left, ch);
    PrefixOfSuffix(s, left, r, ch);
  }

  /** A prefix `r` of a suffix `left` of `s` sits in `s` right after what the
      suffix dropped. */
  lemma InfixOfSuffix(s: string, left: string, r: string)
    requires |left| <= |s| && left == s[|s| - |left|..]
    requires |r| <= |left| && r == left[..|r|]
    ensures OccursAt(s, |s| - |left|, r)
  {
  }

  /** A prefix `r` of a suffix `left` of `s` sits in `s` right after what the
      suffix dropped, and whatever of `left` the prefix leaves out is also the
      tail of `s`. */
  lemma PrefixOfSuffix(s: string, left: string, r: string, ch: char)
    requires |left| <= |s| && left == s[|s| - |left|..]
    requires |r| <= |left| && r == left[..|r|]
    requires forall k :: |r| <= k < |left| ==> left[k] == ch
    ensures var lead := |s| - |left|;
      && lead + |r| <= |s| && s[lead..lead + |r|] == r
      && (forall k :: lead + |r| <= k < |s| ==> s[k] == ch)
  {
    var lead := |s| - |left|;
    forall k | lead + |r| <= k < |s|
      ensures s[k] == ch
    {
      assert s[k] == left[k - lead];
    }
  }

  /** Stripping twice is stripping once. */
  lemma StripIdempotent(s: string, ch: char)
    ensures Strip(Strip(s, ch), ch) == Strip(s, ch)
  {
    var r := Strip(s, ch);
    if |r| > 0 {
      assert StripLeft(r, ch) == r;
      assert StripRight(r, ch) == r;
    }
  }

  /** Stripping removes exactly a run of `ch` from each end. */
  lemma {:induction false} StripPadded(lead: nat, core: string, trail: nat, ch: char)
    requires core == [] || (core[0] != ch && core[|core| - 1] != ch)
    ensures Strip(seq(lead, _ => ch) + core + seq(trail, _ => ch), ch) == core
  {
    var s := seq(lead, _ => ch) + core + seq(trail, _ => ch);
    if |core| == 0 {
      assert s == seq(lead + trail, _ => ch);
      StripLeftAll(lead + trail, ch);
    } else {
      var rest := core + seq(trail, _ => ch);
      assert s == seq(lead, _ => ch) + rest;
      assert rest[0] == core[0];
      StripLeftPadded(lead, rest, ch);
      StripRightPadded(core, trail, ch);
    }
  }

  lemma {:induction false} StripLeftPadded(lead: nat, rest: string, ch: char)
    requires rest == [] || rest[0] != ch
    ensures StripLeft(seq(lead, _ => ch) + rest, ch) == rest
  {
    var s := seq(lead, _ => ch) + rest;
    if lead > 0 {
      var shorter := seq(lead - 1, _ => ch);
      assert seq(lead, _ => ch) == [ch] + shorter;
      assert s == [ch] + (shorter + rest);
      assert s[1..] == shorter + rest;
      StripLeftPadded(lead - 1, rest, ch);
    } else {
      assert s == rest;
    }
  }

  lemma {:induction false} StripLeftAll(n: nat, ch: char)
    ensures StripRight(StripLeft(seq(n, _ => ch), ch), ch) == []
  {
    if n > 0 {
      assert seq(n, _ => ch)[1..] == seq(n - 1, _ => ch);
      StripLeftAll(n - 1, ch);
    }
  }

  lemma {:induction false} StripRightPadded(core: string, trail: nat, ch: char)
    requires |core| > 0 && core[|core| - 1] != ch
    ensures StripRight(core + seq(trail, _ => ch), ch) == core
  {
    if trail > 0 {
      var s := core + seq(trail, _ => ch);
      assert s[..|s| - 1] == core + seq(trail - 1, _ => ch);
      StripRightPadded(core, trail - 1, ch);
    } else {
      assert core + seq(trail, _ => ch) == core;
    }
  }

  // ---------------------------------------------------------------- slicing

  /** Python's normalisation of a slice bound against a length `n`: negative
      bounds count from the end, and the result is clamped to `0..n`. */
  function SliceBound(i: int, n: nat): (k: nat)
    ensures k <= n
    ensures 0 <= i <= n ==> k == i
    ensures -(n as int) <= i < 0 ==> k == n + i
  {
    if i < 0 then (if i + n < 0 then 0 else i + n)
    else if i > n then n
    else i
  }

  /** `s[i:j]`. */
  function Slice(s: string, i: int, j: int): (r: string)
    ensures |r| <= |s|
  {
    var a := SliceBound(i, |s|);
    var b := SliceBound(j, |s|);
    if a < b then s[a..b] else ""
  }

  // ---------------------------------------------------------------- ordering

  /** Python's `a < b` on `str`: code-point lexicographic order, a proper
      prefix coming first. */
  predicate LexLt(a: string, b: string)
    decreases |a|
  {
    |b| > 0 && (|a| == 0 || a[0] < b[0] || (a[0] == b[0] && LexLt(a[1..], b[1..])))
  }

  /** Python's `a <= b` on `str`. */
  predicate LexLe(a: string, b: string)
  {
    a == b || LexLt(a, b)
  }

  lemma {:induction false} LexLtIrreflexive(a: string)
    ensures !LexLt(a, a)
  {
    if |a| > 0 {
      LexLtIrreflexive(a[1..]);
    }
  }

  lemma {:induction false} LexLtTransitive(a: string, b: string, c: string)
    requires LexLt(a, b) && LexLt(b, c)
    ensures LexLt(a, c)
  {
    if |a| > 0 && a[0] == b[0] && b[0] == c[0] {
      LexLtTransitive(a[1..], b[1..], c[1..]);
    }
  }

  /** Any two strings are comparable. */
  lemma {:induction false} LexTotal(a: string, b: string)
    ensures LexLt(a, b) || a == b || LexLt(b, a)
  {
    if |a| > 0 && |b| > 0 && a[0] == b[0] {
      LexTotal(a[1..], b[1..]);
      if a[1..] == b[1..] {
        assert a == [a[0]] + a[1..] && b == [b[0]] + b[1..];
      }
    }
  }

  lemma LexLeTransitive(a: string, b: string, c: string)
    requires LexLe(a, b) && LexLe(b, c)
    ensures LexLe(a, c)
  {
    if LexLt(a, b) && LexLt(b, c) {
      LexLtTransitive(a, b, c);
    }
  }

  /** Comparing two concatenations whose first parts have equal length compares
      the first parts, and the second parts only when the first parts agree. */
  lemma {:induction false} LexLtConcat(a1: string, a2: string, b1: string, b2: string)
    requires |a1| == |b1|
    ensures LexLt(a1 + a2, b1 + b2) <==> LexLt(a1, b1) || (a1 == b1 && LexLt(a2, b2))
  {
    if |a1| > 0 {
      assert (a1 + a2)[1..] == a1[1..] + a2;
      assert (b1 + b2)[1..] == b1[1..] + b2;
      LexLtConcat(a1[1..], a2, b1[1..], b2);
      if a1[0] == b1[0] && a1[1..] == b1[1..] {
        assert a1 == [a1[0]] + a1[1..] && b1 == [b1[0]] + b1[1..];
      }
      if a1 == b1 {
        assert a1[1..] == b1[1..];
      }
    } else {
      assert a1 + a2 == a2 && b1 + b2 == b2;
    }
  }

  // ---------------------------------------------------------------- sorted

  /** Each name is `<=` its successor. */
  predicate Sorted(s: seq<string>)
  {
    forall i :: 0 < i < |s| ==> LexLe(s[i - 1], s[i])
  }

  function Insert(x: string, s: seq<string>): (r: seq<string>)
    requires Sorted(s)
    ensures Sorted(r)
    ensures multiset(r) == multiset(s) + multiset{x}
    ensures |r| == |s| + 1 && (r[0] == x || (|s| > 0 && r[0] == s[0]))
  {
    if |s| == 0 then [x]
    else if LexLe(x, s[0]) then [x] + s
    else
      var rest := Insert(x, s[1..]);
      LexTotal(x, s[0]);
      assert s == [s[0]] + s[1..];
      [s[0]] + rest
  }

  /** `sorted(names)`: a permutation of `names` in ascending order. */
  function SortNames(names: seq<string>): (r: seq<string>)
    ensures Sorted(r)
    ensures multiset(r) == multiset(names)
  {
    if |names| == 0 then []
    else
      assert names == [names[0]] + names[1..];
      Insert(names[0], SortNames(names[1..]))
  }

  /** Adjacent order extends to every pair. */
  lemma {:induction false} SortedPairwise(s: seq<string>, i: int, j: int)
    requires Sorted(s) && 0 <= i <= j < |s|
    ensures LexLe(s[i], s[j])
    decreases j - i
  {
    if i < j {
      SortedPairwise(s, i, j - 1);
      LexLeTransitive(s[i], s[j - 1], s[j]);
    }
  }
}
