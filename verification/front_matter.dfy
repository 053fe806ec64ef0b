/**
 * `parse_front_matter`: splits a document into its front-matter metadata and
 * its body. A line that trims to `---` flips the front-matter toggle; lines
 * read with the toggle on contribute `key: value` entries, lines read with it
 * off are appended to the body, each followed by a newline.
 */
module FrontMatter {
  import opened RustStr

  const Delimiter: string := "---"

  /** The trimmed key and value of a front-matter line, split at its first `:`. */
  function Entry(line: string): (r: Option<(string, string)>)
    ensures r.None? <==> ':' !in line
    ensures r.Some? ==>
      var i := IndexOf(line, ':');
      i < |line| && r.value == (Trim(line[..i]), Trim(line[i + 1..]))
  {
    match SplitOnce(line, ':')
    case None => None
    case Some((key, value)) => Some((Trim(key), Trim(value)))
  }

  /**
   * What the splitter needs to know of one line: whether it trims to the
   * delimiter, and otherwise its text and the entry it yields if it is read
   * inside a front-matter block.
   */
  datatype Line = DelimiterLine | TextLine(text: string, entry: Option<(string, string)>)

  function ClassifyLine(line: string): Line {
    if Trim(line) == Delimiter then DelimiterLine else TextLine(line, Entry(line))
  }

  /** A line holding `:` never trims to the delimiter, so it can only be read as text. */
  lemma ColonLineNoDelimiter(line: string)
    requires ':' in line
    ensures Trim(line) != Delimiter
  {
    TrimKeepsNonWhitespace(line, ':');
  }

  /** The classified lines, in order. */
  function Classify(ls: seq<string>): (cs: seq<Line>)
    ensures |cs| == |ls|
  {
    seq(|ls|, k requires 0 <= k < |ls| => ClassifyLine(ls[k]))
  }

  /** Line `k` of the classification is the classification of line `k`. */
  lemma ClassifyAt(ls: seq<string>, k: nat)
    requires k < |ls|
    ensures Classify(ls)[k] == ClassifyLine(ls[k])
  {
  }

  /** Number of delimiter lines among the first `n` lines. */
  function DelimitersBefore(cs: seq<Line>, n: nat): nat
    requires n <= |cs|
  {
    if n == 0 then 0
    else DelimitersBefore(cs, n - 1) + (if cs[n - 1].DelimiterLine? then 1 else 0)
  }

  /** The toggle as line `k` is read: on after an odd number of delimiters. */
  predicate InFrontMatter(cs: seq<Line>, k: nat)
    requires k <= |cs|
  {
    DelimitersBefore(cs, k) % 2 == 1
  }

  /** Line `k` goes to the body: it is no delimiter and the toggle is off. */
  predicate IsBodyLine(cs: seq<Line>, k: nat)
    requires k < |cs|
  {
    cs[k].TextLine? && !InFrontMatter(cs, k)
  }

  /** `line` has a `:` and its trimmed text before the first `:` is `key`. */
  predicate EntryHasKey(line: string, key: string) {
    Entry(line).Some? && Entry(line).value.0 == key
  }

  /** Line `k` is a front-matter line with a `:` whose trimmed key is `key`. */
  predicate Declares(cs: seq<Line>, k: nat, key: string)
    requires k < |cs|
  {
    cs[k].TextLine? && InFrontMatter(cs, k) && cs[k].entry.Some? && cs[k].entry.value.0 == key
  }

  /** The body lines among the first `n` lines, in their order. */
  function BodyLines(cs: seq<Line>, n: nat): seq<string>
    requires n <= |cs|
  {
    if n == 0 then []
    else BodyLines(cs, n - 1) + (if IsBodyLine(cs, n - 1) then [cs[n - 1].text] else [])
  }

  /** The metadata after the first `n` lines: each entry inserted in line order. */
  function MetadataOf(cs: seq<Line>, n: nat): map<string, string>
    requires n <= |cs|
  {
    if n == 0 then map[]
    else
      var m := MetadataOf(cs, n - 1);
      var c := cs[n - 1];
      if c.TextLine? && InFrontMatter(cs, n - 1) && c.entry.Some?
      then m[c.entry.value.0 := c.entry.value.1]
      else m
  }

  /** The (metadata, body) pair the splitter returns for a document. */
  function Parse(content: string): (map<string, string>, string) {
    var cs := Classify(Lines(content));
    (MetadataOf(cs, |cs|), Unlines(BodyLines(cs, |cs|)))
  }

  /** What reading line `i` does to the toggle, the metadata and the body. */
  lemma ReadLine(cs: seq<Line>, i: nat)
    requires i < |cs|
    ensures cs[i].DelimiterLine? ==>
      && (InFrontMatter(cs, i + 1) <==> !InFrontMatter(cs, i))
      && MetadataOf(cs, i + 1) == MetadataOf(cs, i)
      && BodyLines(cs, i + 1) == BodyLines(cs, i)
    ensures cs[i].TextLine? && InFrontMatter(cs, i) ==>
      && InFrontMatter(cs, i + 1)
      && MetadataOf(cs, i + 1) == (if cs[i].entry.Some?
                                   then MetadataOf(cs, i)[cs[i].entry.value.0 := cs[i].entry.value.1]
                                   else MetadataOf(cs, i))
      && BodyLines(cs, i + 1) == BodyLines(cs, i)
    ensures cs[i].TextLine? && !InFrontMatter(cs, i) ==>
      && !InFrontMatter(cs, i + 1)
      && MetadataOf(cs, i + 1) == MetadataOf(cs, i)
      && BodyLines(cs, i + 1) == BodyLines(cs, i) + [cs[i].text]
  {
  }

  /** The loop's state after reading the first `i` of the lines `ls`. */
  predicate ReadUpTo(ls: seq<string>, i: nat, inFrontMatter: bool, metadata: map<string, string>, body: string)
    requires i <= |ls|
  {
    var cs := Classify(ls);
    inFrontMatter == InFrontMatter(cs, i) && metadata == MetadataOf(cs, i) && body == Unlines(BodyLines(cs, i))
  }

  /** Reading a delimiter line flips the toggle. */
  lemma ReadDelimiter(ls: seq<string>, i: nat, inFrontMatter: bool, metadata: map<string, string>, body: string)
    requires i < |ls| && Trim(ls[i]) == Delimiter && ReadUpTo(ls, i, inFrontMatter, metadata, body)
    ensures ReadUpTo(ls, i + 1, !inFrontMatter, metadata, body)
  {
    ClassifyDelimiter(ls, i);
    ReadLine(Classify(ls), i);
  }

  /** Reading another line inside the block adds its entry, if it has one. */
  lemma ReadEntry(ls: seq<string>, i: nat, inFrontMatter: bool, metadata: map<string, string>, body: string)
    requires i < |ls| && Trim(ls[i]) != Delimiter && inFrontMatter
    requires ReadUpTo(ls, i, inFrontMatter, metadata, body)
    ensures var split := SplitOnce(ls[i], ':');
      ReadUpTo(ls, i + 1, inFrontMatter,
               if split.Some? then metadata[Trim(split.value.0) := Trim(split.value.1)] else metadata, body)
  {
    var cs := Classify(ls);
    ClassifyText(ls, i);
    ReadLine(cs, i);
  }

  /** Reading another line outside the block appends it and a newline to the body. */
  lemma ReadBody(ls: seq<string>, i: nat, inFrontMatter: bool, metadata: map<string, string>, body: string)
    requires i < |ls| && Trim(ls[i]) != Delimiter && !inFrontMatter
    requires ReadUpTo(ls, i, inFrontMatter, metadata, body)
    ensures ReadUpTo(ls, i + 1, inFrontMatter, metadata, body + ls[i] + "\n")
  {
    var cs := Classify(ls);
    ClassifyKeepsText(ls, i);
    ReadLine(cs, i);
    UnlinesSnoc(BodyLines(cs, i), ls[i]);
  }

  /** The splitter itself: one pass over the lines with a boolean toggle. */
  method ParseFrontMatter(content: string) returns (metadata: map<string, string>, body: string)
    ensures (metadata, body) == Parse(content)
  {
    var ls := Lines(content);
    metadata := map[];
    body := "";
    var inFrontMatter := false;
    for i := 0 to |ls|
      invariant ReadUpTo(ls, i, inFrontMatter, metadata, body)
    {
      var line := ls[i];
      if Trim(line) == Delimiter {
        ReadDelimiter(ls, i, inFrontMatter, metadata, body);
        inFrontMatter := !inFrontMatter;
        continue;
      }
      if inFrontMatter {
        ReadEntry(ls, i, inFrontMatter, metadata, body);
        var split := SplitOnce(line, ':');
        if split.Some? {
          var (key, value) := split.value;
          metadata := metadata[Trim(key) := Trim(value)];
        }
      } else {
        ReadBody(ls, i, inFrontMatter, metadata, body);
        body := body + line + "\n";
      }
    }
  }

  /** The texts of the text lines among lines `j` to `n - 1`, in order. */
  function Texts(cs: seq<Line>, j: nat, n: nat): seq<string>
    requires j <= n <= |cs|
    decreases n - j
  {
    if n == j then [] else Texts(cs, j, n - 1) + (if cs[n - 1].TextLine? then [cs[n - 1].text] else [])
  }

  /** When each classified line carries its own text, the texts are the lines. */
  lemma {:induction false} TextsAreLines(cs: seq<Line>, ls: seq<string>, j: nat, n: nat)
    requires j <= n <= |cs| == |ls|
    requires forall k :: j <= k < n ==> cs[k].TextLine? && cs[k].text == ls[k]
    ensures Texts(cs, j, n) == ls[j..n]
    ensures n == |ls| ==> Texts(cs, j, n) == ls[j..]
    decreases n - j
  {
    if n == |ls| {
      assert ls[j..n] == ls[j..];
    }
    if n > j {
      TextsAreLines(cs, ls, j, n - 1);
      assert ls[j..n] == ls[j..n - 1] + [ls[n - 1]];
    }
  }

  lemma {:induction false} NoDelimiterPrefix(cs: seq<Line>, n: nat)
    requires n <= |cs|
    requires forall k :: 0 <= k < |cs| ==> cs[k].TextLine?
    ensures DelimitersBefore(cs, n) == 0
    ensures MetadataOf(cs, n) == map[]
    ensures BodyLines(cs, n) == Texts(cs, 0, n)
  {
    if n > 0 {
      NoDelimiterPrefix(cs, n - 1);
    }
  }

  /** Lines none of which trims to the delimiter are classified as text lines carrying themselves. */
  lemma ClassifyNoDelimiter(ls: seq<string>)
    requires forall l :: l in ls ==> Trim(l) != Delimiter
    ensures forall k :: 0 <= k < |ls| ==> Classify(ls)[k].TextLine? && Classify(ls)[k].text == ls[k]
  {
    forall k | 0 <= k < |ls| ensures Classify(ls)[k].TextLine? && Classify(ls)[k].text == ls[k] {
      assert ls[k] in ls;
      ClassifyKeepsText(ls, k);
    }
  }

  /** Lines none of which trims to the delimiter all go to the body and declare nothing. */
  lemma NoDelimiterLines(ls: seq<string>)
    requires forall l :: l in ls ==> Trim(l) != Delimiter
    ensures MetadataOf(Classify(ls), |ls|) == map[]
    ensures BodyLines(Classify(ls), |ls|) == ls
  {
    var cs := Classify(ls);
    ClassifyNoDelimiter(ls);
    NoDelimiterPrefix(cs, |cs|);
    TextsAreLines(cs, ls, 0, |cs|);
  }

  /**
   * A document without a delimiter line has no metadata, and its body is all
   * of its lines in order, each followed by a newline; without `\r` that is
   * the document itself with a final newline ensured.
   */
  lemma NoFrontMatter(content: string)
    requires forall l :: l in Lines(content) ==> Trim(l) != Delimiter
    ensures Parse(content).0 == map[]
    ensures Parse(content).1 == Unlines(Lines(content))
    ensures '\r' !in content ==>
      Parse(content).1 == if content == [] || content[|content| - 1] == '\n' then content else content + "\n"
  {
    NoDelimiterLines(Lines(content));
    if '\r' !in content {
      UnlinesOfLines(content);
    }
  }

  /** No delimiter line reaches the body: every body line is a line of the document that does not trim to `---`. */
  lemma BodyHasNoDelimiter(content: string)
    ensures var cs := Classify(Lines(content));
      forall l :: l in BodyLines(cs, |cs|) ==> l in Lines(content) && Trim(l) != Delimiter
  {
    var ls := Lines(content);
    var cs := Classify(ls);
    var body := BodyLines(cs, |cs|);
    BodyIsOutsideLines(cs, |cs|);
    forall j | 0 <= j < |body|
      ensures body[j] in ls && Trim(body[j]) != Delimiter
    {
      var k := BodyIndices(cs, |cs|)[j];
      ClassifyAt(ls, k);
    }
  }

  /** Indices of the body lines among the first `n` lines. */
  ghost function BodyIndices(cs: seq<Line>, n: nat): seq<nat>
    requires n <= |cs|
  {
    if n == 0 then []
    else BodyIndices(cs, n - 1) + (if IsBodyLine(cs, n - 1) then [n - 1] else [])
  }

  /**
   * The body is exactly the lines read with the toggle off that are not
   * delimiters, in their original order: the `j`-th body line is line
   * `BodyIndices(cs, n)[j]`, those indices increase, and no such line is skipped.
   */
  lemma {:induction false} BodyIsOutsideLines(cs: seq<Line>, n: nat)
    requires n <= |cs|
    ensures |BodyLines(cs, n)| == |BodyIndices(cs, n)|
    ensures forall j :: 0 <= j < |BodyIndices(cs, n)| ==>
      BodyIndices(cs, n)[j] < n && IsBodyLine(cs, BodyIndices(cs, n)[j])
      && BodyLines(cs, n)[j] == cs[BodyIndices(cs, n)[j]].text
    ensures forall j1, j2 :: 0 <= j1 < j2 < |BodyIndices(cs, n)| ==>
      BodyIndices(cs, n)[j1] < BodyIndices(cs, n)[j2]
    ensures forall k :: 0 <= k < n && IsBodyLine(cs, k) ==> k in BodyIndices(cs, n)
  {
    if n > 0 {
      BodyIsOutsideLines(cs, n - 1);
      var idx, idx' := BodyIndices(cs, n), BodyIndices(cs, n - 1);
      var body, body' := BodyLines(cs, n), BodyLines(cs, n - 1);
      if IsBodyLine(cs, n - 1) {
        assert idx == idx' + [n - 1] && body == body' + [cs[n - 1].text];
        forall j | 0 <= j < |idx|
          ensures idx[j] < n && IsBodyLine(cs, idx[j]) && body[j] == cs[idx[j]].text
        {
          if j < |idx'| {
            assert idx[j] == idx'[j] && body[j] == body'[j];
          }
        }
        forall j1, j2 | 0 <= j1 < j2 < |idx| ensures idx[j1] < idx[j2] {
          assert idx[j1] == idx'[j1];
          if j2 < |idx'| {
            assert idx[j2] == idx'[j2];
          }
        }
        forall k | 0 <= k < n && IsBodyLine(cs, k) ensures k in idx {
          if k < n - 1 {
            assert k in idx';
          }
        }
      } else {
        assert idx == idx' && body == body';
      }
    }
  }

  lemma {:induction false} TogglePersists(cs: seq<Line>, j: nat, n: nat)
    requires j < n <= |cs|
    requires forall k :: j < k < |cs| ==> cs[k].TextLine?
    ensures DelimitersBefore(cs, n) == DelimitersBefore(cs, j + 1)
  {
    if n > j + 1 {
      TogglePersists(cs, j, n - 1);
    }
  }

  lemma {:induction false} NothingAfterOpenDelimiter(cs: seq<Line>, j: nat, n: nat)
    requires j < n <= |cs|
    requires cs[j].DelimiterLine? && InFrontMatter(cs, j + 1)
    requires forall k :: j < k < |cs| ==> cs[k].TextLine?
    ensures BodyLines(cs, n) == BodyLines(cs, j)
  {
    if n > j + 1 {
      NothingAfterOpenDelimiter(cs, j, n - 1);
      TogglePersists(cs, j, n - 1);
    }
  }

  /**
   * An unterminated block: when the last delimiter line, line `j`, opens a
   * block (it is the first, third, ... delimiter), no later line reaches the
   * body.
   */
  lemma UnterminatedBlock(content: string, j: nat)
    requires j < |Lines(content)|
    requires Classify(Lines(content))[j].DelimiterLine?
    requires InFrontMatter(Classify(Lines(content)), j + 1)
    requires forall k :: j < k < |Lines(content)| ==> Trim(Lines(content)[k]) != Delimiter
    ensures Parse(content).1 == Unlines(BodyLines(Classify(Lines(content)), j))
  {
    var ls := Lines(content);
    var cs := Classify(ls);
    forall k | j < k < |cs| ensures cs[k].TextLine? {
      ClassifyKeepsText(ls, k);
    }
    NothingAfterOpenDelimiter(cs, j, |cs|);
  }

  /** The metadata after one more line. */
  lemma MetadataStep(cs: seq<Line>, n: nat, key: string)
    requires 0 < n <= |cs|
    ensures Declares(cs, n - 1, key) ==>
      key in MetadataOf(cs, n) && MetadataOf(cs, n)[key] == cs[n - 1].entry.value.1
    ensures !Declares(cs, n - 1, key) ==>
      (key in MetadataOf(cs, n) <==> key in MetadataOf(cs, n - 1))
      && (key in MetadataOf(cs, n) ==> MetadataOf(cs, n)[key] == MetadataOf(cs, n - 1)[key])
  {
  }

  /**
   * Every metadata entry comes from a front-matter line with a `:`; the key
   * is present exactly when some such line declares it, and its value is the
   * one from the last line that declares it.
   */
  lemma {:induction false} MetadataLastWins(cs: seq<Line>, n: nat, key: string)
    requires n <= |cs|
    ensures key in MetadataOf(cs, n) <==> exists k :: 0 <= k < n && Declares(cs, k, key)
    ensures key in MetadataOf(cs, n) ==>
      exists k :: 0 <= k < n && Declares(cs, k, key)
        && MetadataOf(cs, n)[key] == cs[k].entry.value.1
        && forall k' :: k < k' < n ==> !Declares(cs, k', key)
  {
    if n > 0 {
      MetadataLastWins(cs, n - 1, key);
      MetadataStep(cs, n, key);
      if Declares(cs, n - 1, key) {
        assert 0 <= n - 1 < n && Declares(cs, n - 1, key);
      } else {
        if key in MetadataOf(cs, n) {
          var k :| 0 <= k < n - 1 && Declares(cs, k, key)
            && MetadataOf(cs, n - 1)[key] == cs[k].entry.value.1
            && forall k' :: k < k' < n - 1 ==> !Declares(cs, k', key);
          assert forall k' :: k < k' < n ==> !Declares(cs, k', key);
        }
        assert (exists k :: 0 <= k < n && Declares(cs, k, key))
          ==> exists k :: 0 <= k < n - 1 && Declares(cs, k, key);
      }
    }
  }

  /** Lines read with the toggle off and no delimiter among them all go to the body. */
  lemma {:induction false} OutsideSegment(cs: seq<Line>, j: nat, n: nat)
    requires j <= n <= |cs| && !InFrontMatter(cs, j)
    requires forall k :: j <= k < n ==> cs[k].TextLine?
    ensures DelimitersBefore(cs, n) == DelimitersBefore(cs, j)
    ensures MetadataOf(cs, n) == MetadataOf(cs, j)
    ensures BodyLines(cs, n) == BodyLines(cs, j) + Texts(cs, j, n)
  {
    if n > j {
      OutsideSegment(cs, j, n - 1);
      AppendAssoc(BodyLines(cs, j), Texts(cs, j, n - 1), [cs[n - 1].text]);
    }
  }

  /** Lines read with the toggle on and no delimiter among them add nothing to the body. */
  lemma {:induction false} InsideSegment(cs: seq<Line>, j: nat, n: nat)
    requires j <= n <= |cs| && InFrontMatter(cs, j)
    requires forall k :: j <= k < n ==> cs[k].TextLine?
    ensures DelimitersBefore(cs, n) == DelimitersBefore(cs, j)
    ensures BodyLines(cs, n) == BodyLines(cs, j)
  {
    if n > j {
      InsideSegment(cs, j, n - 1);
    }
  }

  /** The delimiter count in a document whose only delimiters are lines 0 and `b + 1`. */
  lemma MatchedBlockCount(cs: seq<Line>, b: nat)
    requires b + 2 <= |cs|
    requires cs[0].DelimiterLine? && cs[b + 1].DelimiterLine?
    requires forall k :: 0 < k < |cs| && k != b + 1 ==> cs[k].TextLine?
    ensures forall k :: 0 < k <= b + 1 ==> DelimitersBefore(cs, k) == 1
    ensures forall k :: b + 1 < k <= |cs| ==> DelimitersBefore(cs, k) == 2
    ensures BodyLines(cs, b + 2) == [] && MetadataOf(cs, b + 2) == MetadataOf(cs, b + 1)
  {
    assert DelimitersBefore(cs, 1) == 1;
    assert !IsBodyLine(cs, 0);
    assert BodyLines(cs, 1) == BodyLines(cs, 0) + [] == [];
    forall k | 0 < k <= b + 1 ensures DelimitersBefore(cs, k) == 1 {
      InsideSegment(cs, 1, k);
    }
    InsideSegment(cs, 1, b + 1);
    ReadLine(cs, b + 1);
    forall k | b + 1 < k <= |cs| ensures DelimitersBefore(cs, k) == 2 {
      OutsideSegment(cs, b + 2, k);
    }
  }

  /**
   * A document that opens with a delimiter line and closes the block at line
   * `b + 1`: the lines in between are read with the toggle on, the metadata
   * is complete when the block closes, and the body is every line after the
   * closing delimiter.
   */
  lemma MatchedBlock(cs: seq<Line>, b: nat)
    requires b + 2 <= |cs|
    requires cs[0].DelimiterLine? && cs[b + 1].DelimiterLine?
    requires forall k :: 0 < k < |cs| && k != b + 1 ==> cs[k].TextLine?
    ensures forall k :: 0 < k <= b ==> InFrontMatter(cs, k)
    ensures forall k :: b + 1 < k < |cs| ==> !InFrontMatter(cs, k)
    ensures MetadataOf(cs, |cs|) == MetadataOf(cs, b + 1)
    ensures BodyLines(cs, |cs|) == Texts(cs, b + 2, |cs|)
  {
    MatchedBlockCount(cs, b);
    OutsideSegment(cs, b + 2, |cs|);
  }

  /** Line `k` has a `:` and its trimmed text before the `:` is `key`. */
  predicate HasKey(c: Line, key: string) {
    c.TextLine? && c.entry.Some? && c.entry.value.0 == key
  }

  /**
   * In such a document a key is in the metadata exactly when one of lines 1
   * to `b` has a `:` and trims to it before the `:`; its value is the
   * trimmed text after the `:` of the last such line.
   */
  lemma MatchedBlockMetadata(cs: seq<Line>, b: nat, key: string)
    requires b + 2 <= |cs|
    requires cs[0].DelimiterLine? && cs[b + 1].DelimiterLine?
    requires forall k :: 0 < k < |cs| && k != b + 1 ==> cs[k].TextLine?
    ensures key in MetadataOf(cs, |cs|) <==> exists k :: 1 <= k <= b && HasKey(cs[k], key)
    ensures key in MetadataOf(cs, |cs|) ==>
      exists k :: 1 <= k <= b && HasKey(cs[k], key)
        && MetadataOf(cs, |cs|)[key] == cs[k].entry.value.1
        && forall k' :: k < k' <= b ==> !HasKey(cs[k'], key)
  {
    var metadata := MetadataOf(cs, |cs|);
    MetadataLastWins(cs, |cs|, key);
    DeclaresInMatchedBlock(cs, b, key);
    if key in metadata {
      var k :| 0 <= k < |cs| && Declares(cs, k, key)
        && metadata[key] == cs[k].entry.value.1
        && forall k' :: k < k' < |cs| ==> !Declares(cs, k', key);
      assert 1 <= k <= b && HasKey(cs[k], key);
    }
  }

  /** In such a document the lines that declare a key are the block's lines with that key. */
  lemma DeclaresInMatchedBlock(cs: seq<Line>, b: nat, key: string)
    requires b + 2 <= |cs|
    requires cs[0].DelimiterLine? && cs[b + 1].DelimiterLine?
    requires forall k :: 0 < k < |cs| && k != b + 1 ==> cs[k].TextLine?
    ensures forall k :: 0 <= k < |cs| ==> (Declares(cs, k, key) <==> 1 <= k <= b && HasKey(cs[k], key))
  {
    MatchedBlock(cs, b);
    forall k | 0 <= k < |cs| ensures Declares(cs, k, key) <==> 1 <= k <= b && HasKey(cs[k], key) {
    }
  }

  /** A line that does not trim to the delimiter is classified as a text line carrying itself and its entry. */
  lemma ClassifyText(ls: seq<string>, k: nat)
    requires k < |ls| && Trim(ls[k]) != Delimiter
    ensures Classify(ls)[k] == TextLine(ls[k], Entry(ls[k]))
  {
    ClassifyAt(ls, k);
  }

  /** A line that does not trim to the delimiter is classified as a text line carrying itself. */
  lemma ClassifyKeepsText(ls: seq<string>, k: nat)
    requires k < |ls| && Trim(ls[k]) != Delimiter
    ensures Classify(ls)[k].TextLine? && Classify(ls)[k].text == ls[k]
  {
    ClassifyText(ls, k);
  }

  /** A line that trims to the delimiter is classified as a delimiter line. */
  lemma ClassifyDelimiter(ls: seq<string>, k: nat)
    requires k < |ls| && Trim(ls[k]) == Delimiter
    ensures Classify(ls)[k] == DelimiterLine
  {
    ClassifyAt(ls, k);
  }

  /** Two lines that trim to the delimiter are classified as delimiter lines. */
  lemma ClassifyDelimiters(ls: seq<string>, i: nat, j: nat)
    requires i < j < |ls|
    requires Trim(ls[i]) == Delimiter && Trim(ls[j]) == Delimiter
    ensures Classify(ls)[i].DelimiterLine? && Classify(ls)[j].DelimiterLine?
  {
    ClassifyDelimiter(ls, i);
    ClassifyDelimiter(ls, j);
  }

  /** The classification of lines whose delimiter lines are lines 0 and `b + 1`, as far as the body needs it. */
  lemma ClassifyMatchedText(ls: seq<string>, b: nat)
    requires b + 2 <= |ls|
    requires Trim(ls[0]) == Delimiter && Trim(ls[b + 1]) == Delimiter
    requires forall k :: 0 < k < |ls| && k != b + 1 ==> Trim(ls[k]) != Delimiter
    ensures Classify(ls)[0].DelimiterLine? && Classify(ls)[b + 1].DelimiterLine?
    ensures forall k :: 0 < k < |ls| && k != b + 1 ==> Classify(ls)[k].TextLine? && Classify(ls)[k].text == ls[k]
  {
    ClassifyDelimiters(ls, 0, b + 1);
    ClassifyTextsBetween(ls, b);
  }

  lemma ClassifyTextsBetween(ls: seq<string>, b: nat)
    requires forall k :: 0 < k < |ls| && k != b + 1 ==> Trim(ls[k]) != Delimiter
    ensures forall k :: 0 < k < |ls| && k != b + 1 ==> Classify(ls)[k].TextLine? && Classify(ls)[k].text == ls[k]
  {
    forall k | 0 < k < |ls| && k != b + 1 ensures Classify(ls)[k].TextLine? && Classify(ls)[k].text == ls[k] {
      ClassifyKeepsText(ls, k);
    }
  }

  /** The classified lines of a document whose delimiter lines are lines 0 and `b + 1`. */
  lemma ClassifyMatched(ls: seq<string>, b: nat)
    requires b + 2 <= |ls|
    requires Trim(ls[0]) == Delimiter && Trim(ls[b + 1]) == Delimiter
    requires forall k :: 0 < k < |ls| && k != b + 1 ==> Trim(ls[k]) != Delimiter
    ensures Classify(ls)[0].DelimiterLine? && Classify(ls)[b + 1].DelimiterLine?
    ensures forall k :: 0 < k < |ls| && k != b + 1 ==> Classify(ls)[k] == TextLine(ls[k], Entry(ls[k]))
  {
    ClassifyDelimiters(ls, 0, b + 1);
    forall k | 0 < k < |ls| && k != b + 1 ensures Classify(ls)[k] == TextLine(ls[k], Entry(ls[k])) {
      ClassifyText(ls, k);
    }
  }

  /** The body lines of lines whose only delimiters are lines 0 and `b + 1`: the lines after line `b + 1`. */
  lemma MatchedLinesBody(ls: seq<string>, b: nat)
    requires b + 2 <= |ls|
    requires Trim(ls[0]) == Delimiter && Trim(ls[b + 1]) == Delimiter
    requires forall k :: 0 < k < |ls| && k != b + 1 ==> Trim(ls[k]) != Delimiter
    ensures BodyLines(Classify(ls), |ls|) == ls[b + 2..]
  {
    MatchedLinesBodyTexts(ls, b);
    MatchedLinesTexts(ls, b);
  }

  lemma MatchedLinesBodyTexts(ls: seq<string>, b: nat)
    requires b + 2 <= |ls|
    requires Trim(ls[0]) == Delimiter && Trim(ls[b + 1]) == Delimiter
    requires forall k :: 0 < k < |ls| && k != b + 1 ==> Trim(ls[k]) != Delimiter
    ensures BodyLines(Classify(ls), |ls|) == Texts(Classify(ls), b + 2, |ls|)
  {
    ClassifyMatchedText(ls, b);
    MatchedBlock(Classify(ls), b);
  }

  lemma MatchedLinesTexts(ls: seq<string>, b: nat)
    requires b + 2 <= |ls|
    requires forall k :: 0 < k < |ls| && k != b + 1 ==> Trim(ls[k]) != Delimiter
    ensures Texts(Classify(ls), b + 2, |ls|) == ls[b + 2..]
  {
    SuffixTexts(ls, b + 2);
  }

  /** The texts of a suffix of lines none of which trims to the delimiter are those lines. */
  lemma SuffixTexts(ls: seq<string>, j: nat)
    requires j <= |ls|
    requires forall k :: j <= k < |ls| ==> Trim(ls[k]) != Delimiter
    ensures Texts(Classify(ls), j, |ls|) == ls[j..]
  {
    var cs := Classify(ls);
    forall k | j <= k < |ls| ensures cs[k].TextLine? && cs[k].text == ls[k] {
      ClassifyKeepsText(ls, k);
    }
    TextsAreLines(cs, ls, j, |cs|);
  }

  /**
   * A document whose delimiter lines are lines 0 and `b + 1` and no other:
   * the body is the lines after line `b + 1`.
   */
  lemma MatchedFrontMatterBody(content: string, b: nat)
    requires b + 2 <= |Lines(content)|
    requires Trim(Lines(content)[0]) == Delimiter && Trim(Lines(content)[b + 1]) == Delimiter
    requires forall k :: 0 < k < |Lines(content)| && k != b + 1 ==> Trim(Lines(content)[k]) != Delimiter
    ensures Parse(content).1 == Unlines(Lines(content)[b + 2..])
  {
    MatchedLinesBody(Lines(content), b);
  }

  /** In lines whose delimiter lines are lines 0 and `b + 1`, a block line has a key exactly when its classification has it. */
  lemma HasKeyMatched(ls: seq<string>, b: nat, key: string)
    requires b + 2 <= |ls|
    requires forall k :: 0 < k < |ls| && k != b + 1 ==> Trim(ls[k]) != Delimiter
    ensures forall k :: 1 <= k <= b ==>
      (HasKey(Classify(ls)[k], key) <==> EntryHasKey(ls[k], key))
      && (HasKey(Classify(ls)[k], key) ==> Classify(ls)[k].entry.value.1 == Entry(ls[k]).value.1)
  {
    forall k | 1 <= k <= b
      ensures (HasKey(Classify(ls)[k], key) <==> EntryHasKey(ls[k], key))
      ensures HasKey(Classify(ls)[k], key) ==> Classify(ls)[k].entry.value.1 == Entry(ls[k]).value.1
    {
      ClassifyText(ls, k);
    }
  }

  /** The metadata of lines whose delimiter lines are lines 0 and `b + 1`. */
  lemma MatchedLinesMetadata(ls: seq<string>, b: nat, key: string)
    requires b + 2 <= |ls|
    requires Trim(ls[0]) == Delimiter && Trim(ls[b + 1]) == Delimiter
    requires forall k :: 0 < k < |ls| && k != b + 1 ==> Trim(ls[k]) != Delimiter
    ensures key in MetadataOf(Classify(ls), |ls|) <==> exists k :: 1 <= k <= b && EntryHasKey(ls[k], key)
    ensures key in MetadataOf(Classify(ls), |ls|) ==>
      exists k :: 1 <= k <= b && EntryHasKey(ls[k], key)
        && MetadataOf(Classify(ls), |ls|)[key] == Entry(ls[k]).value.1
        && forall k' :: k < k' <= b ==> !EntryHasKey(ls[k'], key)
  {
    ClassifyMatchedText(ls, b);
    MatchedBlockMetadata(Classify(ls), b, key);
    HasKeyMatched(ls, b, key);
    KeysOfLines(Classify(ls), ls, b, key, MetadataOf(Classify(ls), |ls|));
  }

  /** Moves the statement about a block's keys from the classified lines to the raw lines. */
  lemma KeysOfLines(cs: seq<Line>, ls: seq<string>, b: nat, key: string, metadata: map<string, string>)
    requires b + 2 <= |ls| == |cs|
    requires forall k :: 1 <= k <= b ==>
      (HasKey(cs[k], key) <==> EntryHasKey(ls[k], key))
      && (HasKey(cs[k], key) ==> cs[k].entry.value.1 == Entry(ls[k]).value.1)
    requires key in metadata <==> exists k :: 1 <= k <= b && HasKey(cs[k], key)
    requires key in metadata ==>
      exists k :: 1 <= k <= b && HasKey(cs[k], key)
        && metadata[key] == cs[k].entry.value.1
        && forall k' :: k < k' <= b ==> !HasKey(cs[k'], key)
    ensures key in metadata <==> exists k :: 1 <= k <= b && EntryHasKey(ls[k], key)
    ensures key in metadata ==>
      exists k :: 1 <= k <= b && EntryHasKey(ls[k], key)
        && metadata[key] == Entry(ls[k]).value.1
        && forall k' :: k < k' <= b ==> !EntryHasKey(ls[k'], key)
  {
    if key in metadata {
      var k :| 1 <= k <= b && HasKey(cs[k], key)
        && metadata[key] == cs[k].entry.value.1
        && forall k' :: k < k' <= b ==> !HasKey(cs[k'], key);
      assert EntryHasKey(ls[k], key) && metadata[key] == Entry(ls[k]).value.1;
    }
  }

  /**
   * In the same document a key is in the metadata exactly when one of lines
   * 1 to `b` has a `:` and trims to it before the `:`; its value is the
   * trimmed text after the `:` of the last such line.
   */
  lemma MatchedFrontMatterMetadata(content: string, b: nat, key: string)
    requires b + 2 <= |Lines(content)|
    requires Trim(Lines(content)[0]) == Delimiter && Trim(Lines(content)[b + 1]) == Delimiter
    requires forall k :: 0 < k < |Lines(content)| && k != b + 1 ==> Trim(Lines(content)[k]) != Delimiter
    ensures key in Parse(content).0 <==> exists k :: 1 <= k <= b && EntryHasKey(Lines(content)[k], key)
    ensures key in Parse(content).0 ==>
      exists k :: 1 <= k <= b && EntryHasKey(Lines(content)[k], key)
        && Parse(content).0[key] == Entry(Lines(content)[k]).value.1
        && forall k' :: k < k' <= b ==> !EntryHasKey(Lines(content)[k'], key)
  {
    MatchedLinesMetadata(Lines(content), b, key);
  }
}
