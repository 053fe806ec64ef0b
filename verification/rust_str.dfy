/**
 * Models of the Rust `str` operations that the site generator relies on:
 * `char::is_whitespace`, `trim`, `starts_with`, `split_once`, `lines` and
 * `replace`. Strings are sequences of Unicode scalar values.
 */
module RustStr {

  datatype Option<+T> = None | Some(value: T)

  /** `char::is_whitespace`: the characters with the Unicode White_Space property. */
  predicate IsWhitespace(c: char) {
    ('\t' <= c <= '\r') || c == ' ' || c == '\U{85}' || c == '\U{A0}' || c == '\U{1680}'
    || ('\U{2000}' <= c <= '\U{200A}') || c == '\U{2028}' || c == '\U{2029}'
    || c == '\U{202F}' || c == '\U{205F}' || c == '\U{3000}'
  }

  predicate AllWhitespace(s: string) {
    forall k :: 0 <= k < |s| ==> IsWhitespace(s[k])
  }

  /** `trim_start`: drops the longest whitespace prefix. */
  function TrimStart(s: string): string {
    if s != [] && IsWhitespace(s[0]) then TrimStart(s[1..]) else s
  }

  /** `trim_end`: drops the longest whitespace suffix. */
  function TrimEnd(s: string): string {
    if s != [] && IsWhitespace(s[|s| - 1]) then TrimEnd(s[..|s| - 1]) else s
  }

  /** `trim_start` keeps a suffix and removes only whitespace, up to a non-whitespace character. */
  lemma {:induction false} TrimStartSpec(s: string)
    ensures var r := TrimStart(s);
      |r| <= |s| && r == s[|s| - |r|..] && AllWhitespace(s[..|s| - |r|])
      && (r == [] || !IsWhitespace(r[0]))
  {
    if s != [] && IsWhitespace(s[0]) {
      TrimStartSpec(s[1..]);
      var r := TrimStart(s);
      assert s[1..][|s| - 1 - |r|..] == s[|s| - |r|..];
      assert s[..|s| - |r|] == [s[0]] + s[1..][..|s| - 1 - |r|];
    }
  }

  /** `trim_end` keeps a prefix and removes only whitespace, back to a non-whitespace character. */
  lemma {:induction false} TrimEndSpec(s: string)
    ensures var r := TrimEnd(s);
      |r| <= |s| && r == s[..|r|] && AllWhitespace(s[|r|..])
      && (r == [] || !IsWhitespace(r[|r| - 1]))
  {
    if s != [] && IsWhitespace(s[|s| - 1]) {
      TrimEndSpec(s[..|s| - 1]);
      var r := TrimEnd(s);
      assert s[..|s| - 1][..|r|] == s[..|r|];
      assert s[|r|..] == s[..|s| - 1][|r|..] + [s[|s| - 1]];
    }
  }

  /**
   * `trim`: the input without leading and trailing whitespace. What is
   * removed at each end is whitespace (`TrimStartSpec`, `TrimEndSpec`); the
   * result is empty exactly for a whitespace-only input.
   */
  function Trim(s: string): (r: string)
    ensures |r| <= |s|
    ensures r == [] || (!IsWhitespace(r[0]) && !IsWhitespace(r[|r| - 1]))
    ensures r == [] <==> AllWhitespace(s)
  {
    TrimStartSpec(s);
    var t := TrimStart(s);
    TrimEndSpec(t);
    var e := TrimEnd(t);
    assert t != [] ==> !AllWhitespace(s) by {
      if t != [] {
        assert t[0] == s[|s| - |t|];
      }
    }
    assert t != [] ==> e != [] by {
      if t != [] {
        assert t[|e|..] != [] ==> t[|e|..][0] == t[|e|];
      }
    }
    assert t == [] ==> AllWhitespace(s) by {
      if t == [] {
        assert s[..|s|] == s;
      }
    }
    e
  }

  /** Trimming twice is trimming once. */
  lemma {:induction false} TrimIdempotent(s: string)
    ensures Trim(Trim(s)) == Trim(s)
  {
    var r := Trim(s);
    assert r != [] ==> TrimStart(r) == r;
    if r != [] {
      assert TrimEnd(r) == r;
    }
  }

  /** A text with non-whitespace characters at both ends is its own trim. */
  lemma TrimmedText(s: string)
    requires s != [] && !IsWhitespace(s[0]) && !IsWhitespace(s[|s| - 1])
    ensures Trim(s) == s
  {
    assert TrimStart(s) == s;
    assert TrimEnd(s) == s;
  }

  /** Trimming removes only whitespace, so a non-whitespace character of the text stays in it. */
  lemma TrimKeepsNonWhitespace(s: string, c: char)
    requires c in s && !IsWhitespace(c)
    ensures c in Trim(s)
  {
    TrimStartSpec(s);
    var t := TrimStart(s);
    TrimEndSpec(t);
    var e := TrimEnd(t);
    var j :| 0 <= j < |s| && s[j] == c;
    var d := |s| - |t|;
    if j < d {
      assert false;
    }
    assert t[j - d] == c;
    if j - d >= |e| {
      assert false;
    }
    assert e[j - d] == c;
  }

  predicate StartsWith(s: string, prefix: string)
    ensures StartsWith(s, prefix) <==> exists rest :: s == prefix + rest
  {
    if |prefix| <= |s| then
      assert s == s[..|prefix|] + s[|prefix|..];
      s[..|prefix|] == prefix
    else
      false
  }

  /** Index of the first occurrence of `c` in `s`, or `|s|` when there is none. */
  function IndexOf(s: string, c: char): (k: nat)
    ensures k <= |s|
    ensures forall j :: 0 <= j < k ==> s[j] != c
    ensures k < |s| ==> s[k] == c
  {
    if s == [] || s[0] == c then 0 else 1 + IndexOf(s[1..], c)
  }

  /** `split_once` on a character: the text before and after its first occurrence. */
  function SplitOnce(s: string, sep: char): (r: Option<(string, string)>)
    ensures r.None? <==> sep !in s
    ensures r.Some? ==> s == r.value.0 + [sep] + r.value.1 && sep !in r.value.0
  {
    var k := IndexOf(s, sep);
    if k == |s| then None else Some((s[..k], s[k + 1..]))
  }

  predicate EndsWithCarriageReturn(l: string) {
    |l| > 0 && l[|l| - 1] == '\r'
  }

  /** The `\r` of a `\r\n` line ending. */
  function StripCarriageReturn(l: string): string {
    if EndsWithCarriageReturn(l) then l[..|l| - 1] else l
  }

  /**
   * `lines`: splits at `\n`, removes a `\r` that precedes the `\n`, and yields
   * no empty line after a final `\n`. A `\r` not followed by `\n` is kept.
   */
  function Lines(s: string): (ls: seq<string>)
    ensures forall i :: 0 <= i < |ls| ==> '\n' !in ls[i]
    ensures ls == [] <==> s == []
    decreases |s|
  {
    if s == [] then []
    else
      var k := IndexOf(s, '\n');
      if k == |s| then [s] else [StripCarriageReturn(s[..k])] + Lines(s[k + 1..])
  }

  /** Each line followed by a `\n`: what pushing `line` then `'\n'` builds. */
  function Unlines(ls: seq<string>): string {
    if ls == [] then "" else ls[0] + "\n" + Unlines(ls[1..])
  }

  lemma {:induction false} UnlinesSnoc(ls: seq<string>, l: string)
    ensures Unlines(ls + [l]) == Unlines(ls) + l + "\n"
  {
    if ls != [] {
      assert (ls + [l])[1..] == ls[1..] + [l];
      UnlinesSnoc(ls[1..], l);
    }
  }

  /** The first `\n` of `l + "\n" + rest` is the one after `l` when `l` has none. */
  lemma FirstNewlineAfter(l: string, rest: string)
    requires '\n' !in l
    ensures IndexOf(l + "\n" + rest, '\n') == |l|
  {
    var s := l + "\n" + rest;
    var k := IndexOf(s, '\n');
    assert s[|l|] == '\n';
    assert forall j :: 0 <= j < |l| ==> s[j] == l[j];
  }

  /** `lines` takes off a first line that ends in `\n` and has no `\r` before it. */
  lemma LinesOfLineAndRest(l: string, rest: string)
    requires '\n' !in l && !EndsWithCarriageReturn(l)
    ensures Lines(l + "\n" + rest) == [l] + Lines(rest)
  {
    var s := l + "\n" + rest;
    FirstNewlineAfter(l, rest);
    assert s[..|l|] == l;
    assert s[|l| + 1..] == rest;
  }

  /** Splitting newline-terminated lines gives the lines back. */
  lemma {:induction false} LinesOfUnlines(ls: seq<string>)
    requires forall i :: 0 <= i < |ls| ==> '\n' !in ls[i] && !EndsWithCarriageReturn(ls[i])
    ensures Lines(Unlines(ls)) == ls
  {
    if ls != [] {
      LinesOfLineAndRest(ls[0], Unlines(ls[1..]));
      LinesOfUnlines(ls[1..]);
      assert ls == [ls[0]] + ls[1..];
    }
  }

  /** `lines` takes off a first line ending in `\n`, dropping one `\r` right before that `\n`. */
  lemma LinesOfTerminatedLine(l: string, rest: string)
    requires '\n' !in l
    ensures Lines(l + "\n" + rest) == [StripCarriageReturn(l)] + Lines(rest)
  {
    var s := l + "\n" + rest;
    FirstNewlineAfter(l, rest);
    assert s[..|l|] == l;
    assert s[|l| + 1..] == rest;
  }

  /**
   * Splitting lines that each end in `\n` gives them back with one `\r`
   * before each `\n` removed: a `\r\n` line ending counts as a line ending.
   */
  lemma {:induction false} LinesOfCrlfLines(ls: seq<string>)
    requires forall i :: 0 <= i < |ls| ==> '\n' !in ls[i]
    ensures Lines(Unlines(ls)) == seq(|ls|, i requires 0 <= i < |ls| => StripCarriageReturn(ls[i]))
  {
    if ls != [] {
      LinesOfTerminatedLine(ls[0], Unlines(ls[1..]));
      LinesOfCrlfLines(ls[1..]);
      StrippedCons(ls);
    }
  }

  lemma StrippedCons(ls: seq<string>)
    requires ls != []
    ensures seq(|ls|, i requires 0 <= i < |ls| => StripCarriageReturn(ls[i]))
         == [StripCarriageReturn(ls[0])] + seq(|ls| - 1, i requires 0 <= i < |ls| - 1 => StripCarriageReturn(ls[1..][i]))
  {
  }

  /** A non-empty text without `\n` is a single line, a `\r` anywhere in it kept. */
  lemma SingleLine(s: string)
    requires s != [] && '\n' !in s
    ensures Lines(s) == [s]
  {
  }

  /** A `\r` that does not precede a `\n` stays in the line. */
  lemma BareCarriageReturnKept(l: string)
    requires '\n' !in l
    ensures Lines(l + "\r") == [l + "\r"]
  {
    SingleLine(l + "\r");
  }

  /** One step of `lines` on a text that has a `\n`. */
  lemma LinesStep(s: string)
    requires IndexOf(s, '\n') < |s|
    ensures var k := IndexOf(s, '\n');
            Lines(s) == [StripCarriageReturn(s[..k])] + Lines(s[k + 1..])
  {
  }

  /** One step of joining the lines of a text without `\r` that has a `\n`. */
  lemma UnlinesOfLinesStep(s: string)
    requires '\r' !in s && IndexOf(s, '\n') < |s|
    ensures var k := IndexOf(s, '\n');
            Unlines(Lines(s)) == s[..k] + "\n" + Unlines(Lines(s[k + 1..]))
  {
    var k := IndexOf(s, '\n');
    assert '\r' !in s[..k] by {
      forall c | c in s[..k] ensures c in s {}
    }
    assert StripCarriageReturn(s[..k]) == s[..k];
    LinesStep(s);
  }

  /** Ensuring a final `\n` after a first line is ensuring it on the rest. */
  lemma FinalNewlineAfterLine(line: string, rest: string, u: string)
    requires u == if rest == [] || rest[|rest| - 1] == '\n' then rest else rest + "\n"
    ensures var s := line + "\n" + rest;
            line + "\n" + u == if s[|s| - 1] == '\n' then s else s + "\n"
  {
    var s := line + "\n" + rest;
    if rest != [] {
      assert s[|s| - 1] == rest[|rest| - 1];
      AppendAssoc(line + "\n", rest, "\n");
    }
  }

  /** A text without `\r` is its line, the `\n` and the rest, and the rest has no `\r` either. */
  lemma SplitAtNewline(s: string, k: nat)
    requires '\r' !in s && k < |s| && s[k] == '\n'
    ensures s == s[..k] + "\n" + s[k + 1..] && '\r' !in s[k + 1..]
  {
    assert s == s[..k] + [s[k]] + s[k + 1..];
    forall c | c in s[k + 1..] ensures c in s {}
  }

  /** Without `\r`, joining the lines back gives the text with a final `\n` ensured. */
  lemma {:induction false} UnlinesOfLines(s: string)
    requires '\r' !in s
    ensures Unlines(Lines(s)) == if s == [] || s[|s| - 1] == '\n' then s else s + "\n"
    decreases |s|
  {
    if s != [] {
      var k := IndexOf(s, '\n');
      if k < |s| {
        var line, rest := s[..k], s[k + 1..];
        SplitAtNewline(s, k);
        UnlinesOfLinesStep(s);
        UnlinesOfLines(rest);
        FinalNewlineAfterLine(line, rest, Unlines(Lines(rest)));
      }
    }
  }

  /** `pat` occurs in `s` at index `i`. */
  predicate OccursAt(s: string, pat: string, i: nat) {
    i + |pat| <= |s| && s[i..i + |pat|] == pat
  }

  /**
   * `str::replace`: scans left to right, replaces each non-overlapping
   * occurrence of `pat` by `rep`, and does not rescan the inserted text.
   */
  function Replace(s: string, pat: string, rep: string): (r: string)
    requires pat != []
    ensures rep == pat ==> r == s
    decreases |s|
  {
    if |s| < |pat| then s
    else if s[..|pat|] == pat then
      assert s == s[..|pat|] + s[|pat|..];
      rep + Replace(s[|pat|..], pat, rep)
    else
      assert s == [s[0]] + s[1..];
      [s[0]] + Replace(s[1..], pat, rep)
  }

  lemma AppendAssoc<T>(x: seq<T>, y: seq<T>, z: seq<T>)
    ensures x + (y + z) == (x + y) + z
  {
  }

  /** `b` occurs in `a + (b + c)` right after `a`. */
  lemma OccursAtJoin(a: string, b: string, c: string)
    ensures OccursAt(a + (b + c), b, |a|)
  {
    assert (a + (b + c))[|a|..|a| + |b|] == b;
  }

  /** Occurrences in a suffix are occurrences in the whole, shifted. */
  lemma OccursAtDrop(s: string, pat: string, d: nat, i: nat)
    requires d <= |s|
    ensures OccursAt(s[d..], pat, i) <==> OccursAt(s, pat, i + d)
  {
    if i + d + |pat| <= |s| {
      assert s[d..][i..i + |pat|] == s[i + d..i + d + |pat|];
    }
  }

  /** A text in which the pattern never occurs is returned unchanged. */
  lemma {:induction false} ReplaceAbsent(s: string, pat: string, rep: string)
    requires pat != []
    requires forall i: nat :: !OccursAt(s, pat, i)
    ensures Replace(s, pat, rep) == s
    decreases |s|
  {
    if |s| >= |pat| {
      assert !OccursAt(s, pat, 0);
      forall i: nat ensures !OccursAt(s[1..], pat, i) {
        OccursAtDrop(s, pat, 1, i);
      }
      ReplaceAbsent(s[1..], pat, rep);
    }
  }

  /**
   * Replacing distributes over a concatenation when no occurrence of the
   * pattern straddles the boundary between the two parts.
   */
  lemma {:induction false} ReplaceSplit(a: string, b: string, pat: string, rep: string)
    requires pat != []
    requires forall i: nat :: i < |a| < i + |pat| ==> !OccursAt(a + b, pat, i)
    ensures Replace(a + b, pat, rep) == Replace(a, pat, rep) + Replace(b, pat, rep)
    decreases |a|, 1
  {
    var s := a + b;
    if a == [] {
      assert s == b;
    } else if |s| < |pat| {
    } else if s[..|pat|] == pat {
      ReplaceSplitAtMatch(a, b, pat, rep);
    } else {
      ReplaceSplitPastChar(a, b, pat, rep);
    }
  }

  /** `ReplaceSplit` when the text starts with the pattern, which then lies inside `a`. */
  lemma {:induction false} ReplaceSplitAtMatch(a: string, b: string, pat: string, rep: string)
    requires pat != [] && a != []
    requires forall i: nat :: i < |a| < i + |pat| ==> !OccursAt(a + b, pat, i)
    requires |pat| <= |a + b| && (a + b)[..|pat|] == pat
    ensures Replace(a + b, pat, rep) == Replace(a, pat, rep) + Replace(b, pat, rep)
    decreases |a|, 0
  {
    var s := a + b;
    assert OccursAt(s, pat, 0);
    assert a[..|pat|] == pat;
    var a' := a[|pat|..];
    assert s[|pat|..] == a' + b;
    forall i: nat | i < |a'| < i + |pat| ensures !OccursAt(a' + b, pat, i) {
      OccursAtDrop(s, pat, |pat|, i);
    }
    ReplaceSplit(a', b, pat, rep);
  }

  /** `ReplaceSplit` when the text does not start with the pattern: its first character is kept. */
  lemma {:induction false} ReplaceSplitPastChar(a: string, b: string, pat: string, rep: string)
    requires pat != [] && a != []
    requires forall i: nat :: i < |a| < i + |pat| ==> !OccursAt(a + b, pat, i)
    requires |pat| <= |a + b| && (a + b)[..|pat|] != pat
    ensures Replace(a + b, pat, rep) == Replace(a, pat, rep) + Replace(b, pat, rep)
    decreases |a|, 0
  {
    var s := a + b;
    var a' := a[1..];
    assert s[1..] == a' + b;
    assert s[0] == a[0];
    forall i: nat | i < |a'| < i + |pat| ensures !OccursAt(a' + b, pat, i) {
      OccursAtDrop(s, pat, 1, i);
    }
    ReplaceSplit(a', b, pat, rep);
    var ra, rb := Replace(a', pat, rep), Replace(b, pat, rep);
    assert Replace(s, pat, rep) == [a[0]] + (ra + rb);
    if |a| < |pat| {
      assert Replace(a, pat, rep) == a && ra == a';
      assert a == [a[0]] + a';
    } else {
      assert a[..|pat|] == s[..|pat|];
      assert Replace(a, pat, rep) == [a[0]] + ra;
    }
    AppendAssoc([a[0]], ra, rb);
  }
}
