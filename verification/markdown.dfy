/**
 * `markdown_to_html`: turns each line of the body into one HTML element
 * followed by a newline, chosen by a fixed cascade of prefix tests. Nothing
 * is escaped, and consecutive list items get no enclosing list element.
 */
module Markdown {
  import opened RustStr

  /** The element for one line, in the order the code tests the prefixes. */
  function Element(line: string): (e: string)
    ensures |e| >= 5 && e[0] == '<' && e[|e| - 1] == '>'
  {
    if StartsWith(line, "# ") then "<h1>" + line[2..] + "</h1>"
    else if StartsWith(line, "## ") then "<h2>" + line[3..] + "</h2>"
    else if StartsWith(line, "### ") then "<h3>" + line[4..] + "</h3>"
    else if StartsWith(line, "* ") then "<li>" + line[2..] + "</li>"
    else if Trim(line) == [] then "<br/>"
    else "<p>" + line + "</p>"
  }

  /** What the converter appends for one line: its element and a newline. */
  function LineToHtml(line: string): string {
    Element(line) + "\n"
  }

  /** The same cascade with the longest heading prefix tested first. */
  function LineToHtmlByPriority(line: string): string {
    if StartsWith(line, "### ") then "<h3>" + line[4..] + "</h3>\n"
    else if StartsWith(line, "## ") then "<h2>" + line[3..] + "</h2>\n"
    else if StartsWith(line, "# ") then "<h1>" + line[2..] + "</h1>\n"
    else if StartsWith(line, "* ") then "<li>" + line[2..] + "</li>\n"
    else if AllWhitespace(line) then "<br/>\n"
    else "<p>" + line + "</p>\n"
  }

  /**
   * The three heading prefixes exclude each other (the second character is a
   * space or a `#`, the third a space or not), so testing `# ` first gives
   * the same element as testing `### ` first.
   */
  lemma CascadeOrderIrrelevant(line: string)
    ensures !(StartsWith(line, "# ") && StartsWith(line, "## "))
    ensures !(StartsWith(line, "# ") && StartsWith(line, "### "))
    ensures !(StartsWith(line, "## ") && StartsWith(line, "### "))
    ensures LineToHtml(line) == LineToHtmlByPriority(line)
  {
    if StartsWith(line, "## ") {
      assert line[1] == '#';
    }
    if StartsWith(line, "### ") {
      assert line[1] == '#' && line[2] == '#';
    }
  }

  lemma Heading1(text: string)
    ensures LineToHtml("# " + text) == "<h1>" + text + "</h1>\n"
  {
    assert ("# " + text)[2..] == text;
  }

  lemma Heading2(text: string)
    ensures LineToHtml("## " + text) == "<h2>" + text + "</h2>\n"
  {
    assert ("## " + text)[..2] != "# " by {
      assert ("## " + text)[1] == '#';
    }
    assert ("## " + text)[3..] == text;
  }

  lemma Heading3(text: string)
    ensures LineToHtml("### " + text) == "<h3>" + text + "</h3>\n"
  {
    var line := "### " + text;
    assert line[1] == '#' && line[2] == '#';
    assert line[..2] != "# " && line[..3] != "## ";
    assert line[4..] == text;
  }

  lemma ListItem(text: string)
    ensures LineToHtml("* " + text) == "<li>" + text + "</li>\n"
  {
    var line := "* " + text;
    assert line[0] == '*';
    assert line[2..] == text;
  }

  /** A line of whitespace only (the empty line included) becomes a line break. */
  lemma BlankLine(line: string)
    requires AllWhitespace(line)
    ensures LineToHtml(line) == "<br/>\n"
  {
    if |line| > 0 {
      assert IsWhitespace(line[0]);
    }
  }

  /** Any other line becomes a paragraph holding the line verbatim, unescaped. */
  lemma Paragraph(line: string)
    requires !StartsWith(line, "# ") && !StartsWith(line, "## ") && !StartsWith(line, "### ")
    requires !StartsWith(line, "* ") && !AllWhitespace(line)
    ensures LineToHtml(line) == "<p>" + line + "</p>\n"
  {
  }

  /** The concatenation, in line order, of the elements for `ls`. */
  function HtmlOf(ls: seq<string>): string {
    if ls == [] then "" else HtmlOf(ls[..|ls| - 1]) + LineToHtml(ls[|ls| - 1])
  }

  /** What the converter returns for a body. */
  function ToHtml(markdown: string): string {
    HtmlOf(Lines(markdown))
  }

  /** The text the loop pushes for a line, read off its branch, is the line's element and a newline. */
  lemma PushedElement(line: string, pushed: string)
    requires StartsWith(line, "# ") ==> pushed == "<h1>" + line[2..] + "</h1>\n"
    requires (!StartsWith(line, "# ") && StartsWith(line, "## ")) ==>
               pushed == "<h2>" + line[3..] + "</h2>\n"
    requires (!StartsWith(line, "# ") && !StartsWith(line, "## ") && StartsWith(line, "### ")) ==>
               pushed == "<h3>" + line[4..] + "</h3>\n"
    requires (!StartsWith(line, "# ") && !StartsWith(line, "## ") && !StartsWith(line, "### ")
              && StartsWith(line, "* ")) ==>
               pushed == "<li>" + line[2..] + "</li>\n"
    requires (!StartsWith(line, "# ") && !StartsWith(line, "## ") && !StartsWith(line, "### ")
              && !StartsWith(line, "* ") && Trim(line) == []) ==>
               pushed == "<br/>\n"
    requires (!StartsWith(line, "# ") && !StartsWith(line, "## ") && !StartsWith(line, "### ")
              && !StartsWith(line, "* ") && Trim(line) != []) ==>
               pushed == "<p>" + line + "</p>\n"
    ensures pushed == LineToHtml(line)
  {
  }

  /** The converter itself: one element appended per line. */
  method MarkdownToHtml(markdown: string) returns (html: string)
    ensures html == ToHtml(markdown)
  {
    var ls := Lines(markdown);
    html := "";
    for i := 0 to |ls|
      invariant html == HtmlOf(ls[..i])
    {
      var line := ls[i];
      assert ls[..i + 1][..i] == ls[..i];
      assert HtmlOf(ls[..i + 1]) == html + LineToHtml(line);
      var pushed: string;
      if StartsWith(line, "# ") {
        pushed := "<h1>" + line[2..] + "</h1>\n";
      } else if StartsWith(line, "## ") {
        pushed := "<h2>" + line[3..] + "</h2>\n";
      } else if StartsWith(line, "### ") {
        pushed := "<h3>" + line[4..] + "</h3>\n";
      } else if StartsWith(line, "* ") {
        pushed := "<li>" + line[2..] + "</li>\n";
      } else if Trim(line) == [] {
        pushed := "<br/>\n";
      } else {
        pushed := "<p>" + line + "</p>\n";
      }
      // The branches above restate `Element` as the source writes them, one push per case.
      PushedElement(line, pushed);
      html := html + pushed;
    }
    assert ls[..|ls|] == ls;
  }

  lemma NoNewlineInSuffix(line: string, d: nat)
    requires d <= |line| && '\n' !in line
    ensures '\n' !in line[d..]
  {
    forall c | c in line[d..] ensures c in line {}
  }

  /** Text between two tags spans one line when the text does. */
  lemma Tagged(open: string, text: string, close: string)
    requires '\n' !in open && '\n' !in text && '\n' !in close
    requires close != [] && close[|close| - 1] == '>'
    ensures '\n' !in open + text + close && !EndsWithCarriageReturn(open + text + close)
  {
    var e := open + text + close;
    assert e[|e| - 1] == close[|close| - 1];
  }

  /** A heading or list item spans one line: it has no newline and ends in `>`. */
  lemma TaggedSuffix(open: string, line: string, d: nat, close: string)
    requires d <= |line| && '\n' !in line
    requires '\n' !in open && '\n' !in close && close != [] && close[|close| - 1] == '>'
    ensures '\n' !in open + line[d..] + close && !EndsWithCarriageReturn(open + line[d..] + close)
  {
    NoNewlineInSuffix(line, d);
    Tagged(open, line[d..], close);
  }

  /** An element spans one line: it has no newline and ends in `>`. */
  lemma ElementShape(line: string)
    requires '\n' !in line
    ensures '\n' !in Element(line) && !EndsWithCarriageReturn(Element(line))
  {
    if StartsWith(line, "# ") {
      TaggedSuffix("<h1>", line, 2, "</h1>");
    } else if StartsWith(line, "## ") {
      TaggedSuffix("<h2>", line, 3, "</h2>");
    } else if StartsWith(line, "### ") {
      TaggedSuffix("<h3>", line, 4, "</h3>");
    } else if StartsWith(line, "* ") {
      TaggedSuffix("<li>", line, 2, "</li>");
    } else if Trim(line) != [] {
      Tagged("<p>", line, "</p>");
    }
  }

  /** The elements for `ls`, line by line. */
  function Elements(ls: seq<string>): (es: seq<string>)
    ensures |es| == |ls|
  {
    seq(|ls|, k requires 0 <= k < |ls| => Element(ls[k]))
  }

  lemma ElementsSnoc(ls: seq<string>)
    requires ls != []
    ensures Elements(ls) == Elements(ls[..|ls| - 1]) + [Element(ls[|ls| - 1])]
  {
    var n := |ls| - 1;
    assert forall k :: 0 <= k < n ==> Elements(ls)[k] == Elements(ls[..n])[k];
  }

  /** The converter's output is the elements joined with newlines, each followed by one. */
  lemma {:induction false} HtmlIsUnlinedElements(ls: seq<string>)
    ensures HtmlOf(ls) == Unlines(Elements(ls))
  {
    if ls != [] {
      var n := |ls| - 1;
      HtmlIsUnlinedElements(ls[..n]);
      ElementsSnoc(ls);
      UnlinesSnoc(Elements(ls[..n]), Element(ls[n]));
    }
  }

  /**
   * The output holds exactly one element per input line, in order: splitting
   * the HTML into lines gives back, for line `k` of the body, the element
   * for line `k`.
   */
  lemma OneElementPerLine(markdown: string)
    ensures |Lines(ToHtml(markdown))| == |Lines(markdown)|
    ensures forall k :: 0 <= k < |Lines(markdown)| ==>
      Lines(ToHtml(markdown))[k] + "\n" == LineToHtml(Lines(markdown)[k])
  {
    var ls := Lines(markdown);
    var es := Elements(ls);
    HtmlIsUnlinedElements(ls);
    forall k | 0 <= k < |es| ensures '\n' !in es[k] && !EndsWithCarriageReturn(es[k]) {
      ElementShape(ls[k]);
    }
    LinesOfUnlines(es);
  }
}
