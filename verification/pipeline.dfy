/**
 * What the site generator does with the text of one Markdown document once
 * it has read it: split off the front matter, convert the body, and render
 * the layout with the metadata and the converted body.
 */
module Pipeline {
  import opened RustStr
  import FrontMatter
  import Markdown
  import Template

  /** The page for a document when its metadata is visited in the order `entries`. */
  function Page(document: string, layout: string, entries: seq<(string, string)>): string {
    Template.Render(layout, entries, Markdown.ToHtml(FrontMatter.Parse(document).1))
  }

  /** The three stages in sequence; `entries` is the order the metadata map was visited in. */
  method RenderDocument(document: string, layout: string) returns (html: string, ghost entries: seq<(string, string)>)
    ensures Template.IsEnumeration(entries, FrontMatter.Parse(document).0)
    ensures html == Page(document, layout, entries)
    ensures FrontMatter.Parse(document).0 == map[] ==>
      html == Replace(layout, Template.Placeholder(Template.ContentKey), Markdown.ToHtml(FrontMatter.Parse(document).1))
    ensures (forall i: nat :: !OccursAt(layout, "{{ ", i)) ==> html == layout
  {
    var metadata, body := FrontMatter.ParseFrontMatter(document);
    var fragment := Markdown.MarkdownToHtml(body);
    html, entries := Template.RenderTemplate(layout, metadata, fragment);
  }

  /**
   * A front-matter line `key: value` that the splitter reads back as exactly
   * that entry: the key has no `:` and is already trimmed, the value is
   * already trimmed, and neither spans lines. The `:` of the line keeps it
   * from trimming to the delimiter (`FrontMatter.ColonLineNoDelimiter`).
   */
  predicate SimpleEntry(key: string, value: string) {
    ':' !in key && '\n' !in key && '\n' !in value && Trim(key) == key && Trim(value) == value
  }

  /** Body lines that survive the round trip through `lines` and are no delimiters. */
  predicate BodyText(body: seq<string>) {
    forall k :: 0 <= k < |body| ==>
      '\n' !in body[k] && !EndsWithCarriageReturn(body[k]) && Trim(body[k]) != FrontMatter.Delimiter
  }

  /** A document made of a one-entry front-matter block followed by the body lines. */
  function Document(key: string, value: string, body: seq<string>): string {
    Unlines([FrontMatter.Delimiter, key + ": " + value, FrontMatter.Delimiter] + body)
  }

  lemma IndexOfAfter(l: string, c: char, rest: string)
    requires c !in l
    ensures IndexOf(l + [c] + rest, c) == |l|
  {
    var s := l + [c] + rest;
    assert s[|l|] == c;
    assert forall j :: 0 <= j < |l| ==> s[j] == l[j];
  }

  /** A leading space does not change what a trimmed text trims to. */
  lemma TrimLeadingSpace(value: string)
    requires Trim(value) == value
    ensures Trim(" " + value) == value
  {
    assert (" " + value)[1..] == value;
    assert TrimStart(" " + value) == TrimStart(value);
  }

  /** The front-matter line reads back as the entry it was written from. */
  lemma EntryLine(key: string, value: string)
    requires SimpleEntry(key, value)
    ensures FrontMatter.Entry(key + ": " + value) == Some((key, value))
  {
    var line := key + ": " + value;
    assert line == key + [':'] + (" " + value);
    IndexOfAfter(key, ':', " " + value);
    assert line[..|key|] == key;
    assert line[|key| + 1..] == " " + value;
    TrimLeadingSpace(value);
  }

  /** The front-matter line is a single line with no `\r` at its end. */
  lemma EntryLineShape(key: string, value: string)
    requires SimpleEntry(key, value)
    ensures '\n' !in key + ": " + value && !EndsWithCarriageReturn(key + ": " + value)
  {
    var line := key + ": " + value;
    if value != [] {
      assert line[|line| - 1] == value[|value| - 1];
    }
  }

  /** The front-matter line does not trim to the delimiter. */
  lemma EntryLineNoDelimiter(key: string, value: string)
    requires SimpleEntry(key, value)
    ensures Trim(key + ": " + value) != FrontMatter.Delimiter
  {
    var line := key + ": " + value;
    assert line[|key|] == ':';
    FrontMatter.ColonLineNoDelimiter(line);
  }

  /** The delimiter line trims to itself. */
  lemma DelimiterTrimmed()
    ensures Trim(FrontMatter.Delimiter) == FrontMatter.Delimiter
  {
    TrimmedText(FrontMatter.Delimiter);
  }

  /** Splitting the document gives back its lines. */
  lemma DocumentLines(key: string, value: string, body: seq<string>)
    requires SimpleEntry(key, value) && BodyText(body)
    ensures Lines(Document(key, value, body)) == [FrontMatter.Delimiter, key + ": " + value, FrontMatter.Delimiter] + body
  {
    var ls := [FrontMatter.Delimiter, key + ": " + value, FrontMatter.Delimiter] + body;
    EntryLineShape(key, value);
    forall i | 0 <= i < |ls| ensures '\n' !in ls[i] && !EndsWithCarriageReturn(ls[i]) {
      if i >= 3 {
        assert ls[i] == body[i - 3];
      }
    }
    LinesOfUnlines(ls);
  }

  /** The document's delimiter lines are lines 0 and 2 and no others. */
  lemma DocumentDelimiters(key: string, value: string, body: seq<string>)
    requires SimpleEntry(key, value) && BodyText(body)
    ensures var ls := Lines(Document(key, value, body));
      |ls| >= 3 && Trim(ls[0]) == FrontMatter.Delimiter && Trim(ls[2]) == FrontMatter.Delimiter
      && (forall k :: 0 < k < |ls| && k != 2 ==> Trim(ls[k]) != FrontMatter.Delimiter)
      && ls[1] == key + ": " + value && ls[3..] == body
  {
    DocumentLines(key, value, body);
    EntryLineNoDelimiter(key, value);
    DelimiterTrimmed();
    var ls := Lines(Document(key, value, body));
    forall k | 3 <= k < |ls| ensures ls[k] == body[k - 3] {
    }
    assert ls[3..] == body;
  }

  /** The body of the document is its body lines. */
  lemma DocumentBody(key: string, value: string, body: seq<string>)
    requires SimpleEntry(key, value) && BodyText(body)
    ensures FrontMatter.Parse(Document(key, value, body)).1 == Unlines(body)
  {
    DocumentDelimiters(key, value, body);
    FrontMatter.MatchedFrontMatterBody(Document(key, value, body), 1);
  }

  /** A document whose only front-matter line is line 1 has that line's entry as its metadata. */
  lemma OneEntryMetadata(content: string, key: string, value: string)
    requires 3 <= |Lines(content)|
    requires Trim(Lines(content)[0]) == FrontMatter.Delimiter && Trim(Lines(content)[2]) == FrontMatter.Delimiter
    requires forall k :: 0 < k < |Lines(content)| && k != 2 ==> Trim(Lines(content)[k]) != FrontMatter.Delimiter
    requires FrontMatter.Entry(Lines(content)[1]) == Some((key, value))
    ensures FrontMatter.Parse(content).0 == map[key := value]
  {
    var ls := Lines(content);
    var cs := FrontMatter.Classify(ls);
    FrontMatter.ClassifyMatched(ls, 1);
    FrontMatter.MatchedBlock(cs, 1);
    assert FrontMatter.InFrontMatter(cs, 1);
    FrontMatter.ReadLine(cs, 1);
    assert FrontMatter.MetadataOf(cs, 1) == map[];
  }

  /** The metadata of the document is its one entry. */
  lemma DocumentMetadata(key: string, value: string, body: seq<string>)
    requires SimpleEntry(key, value) && BodyText(body)
    ensures FrontMatter.Parse(Document(key, value, body)).0 == map[key := value]
  {
    DocumentDelimiters(key, value, body);
    EntryLine(key, value);
    OneEntryMetadata(Document(key, value, body), key, value);
  }

  /**
   * End to end: a document with one front-matter entry, rendered in a layout
   * that holds that entry's placeholder and the content placeholder, is the
   * layout with the value and the converted body put in their places,
   * whatever the order the metadata is visited in.
   */
  lemma RenderedDocument(key: string, value: string, body: seq<string>,
                         head: string, middle: string, tail: string, entries: seq<(string, string)>)
    requires SimpleEntry(key, value) && BodyText(body)
    requires Template.BraceFree(head) && Template.BraceFree(middle) && Template.BraceFree(tail)
    requires Template.BraceFree(key) && Template.BraceFree(value) && key != Template.ContentKey
    requires Template.IsEnumeration(entries, FrontMatter.Parse(Document(key, value, body)).0)
    ensures Page(Document(key, value, body),
                 head + Template.Placeholder(key) + middle + Template.Placeholder(Template.ContentKey) + tail, entries)
         == head + value + middle + Markdown.HtmlOf(body) + tail
  {
    DocumentBody(key, value, body);
    DocumentMetadata(key, value, body);
    forall i | 0 <= i < |body| ensures '\n' !in body[i] && !EndsWithCarriageReturn(body[i]) {
    }
    LinesOfUnlines(body);
    Template.RenderPageLayout(head, key, value, middle, tail, Markdown.HtmlOf(body), entries);
  }
}
