# rustsite core, modelled in Dafny

rustsite is a small static-site generator. It takes every Markdown document in
a directory and does three things with it:

1. It splits off a front-matter block of `key: value` lines fenced by `---` lines.
2. It converts the remaining lines to HTML, one element per line.
3. It renders a layout template. Each `{{ key }}` placeholder is replaced by the
   metadata value for that key, and `{{ content }}` is replaced by the converted body.

This project models those three functions of `src/lib.rs` as imperative Dafny:

- `parse_front_matter` becomes `FrontMatter.ParseFrontMatter`.
- `markdown_to_html` becomes `Markdown.MarkdownToHtml`.
- `render_template` becomes `Template.RenderTemplate`.

It also models the Rust string primitives they rely on, in `RustStr`:
`str::lines`, `str::trim`, `str::split_once`, `str::starts_with` and `str::replace`.

Each method keeps the source's loop and the state that loop updates:

- the `in_front_matter` flag, the metadata map and the body string;
- the `html` string that is appended to;
- the `html` string that is reassigned once per metadata entry, then once for the content.

Each method is proved equal to a pure specification function:

- `FrontMatter.Parse`;
- `Markdown.ToHtml`;
- `Template.Render`.

The properties the generator relies on are proved as lemmas about those functions.

`Pipeline.RenderDocument` chains the three methods the way `generate_site` does
for one document.

## Modelling decisions

- Strings are `seq<char>`.
  - `trim` removes the characters with the Unicode White_Space property, listed in
    `RustStr.IsWhitespace`.
  - `lines` splits at `\n`. It drops a `\r` only when that `\r` comes right before a
    `\n`, and it yields no empty line after a final `\n`. `RustStr.LinesOfCrlfLines`
    states this for `\r\n` line endings, and `RustStr.BareCarriageReturnKept` for a
    `\r` with no `\n` after it.
  - `replace` scans left to right and replaces non-overlapping occurrences. It never
    rescans the text it has inserted.
- **Metadata order.** The metadata is a `HashMap`, so `render_template` visits it in
  an order the program does not choose.
  - `RenderTemplate` picks each next key with `:|`, so every order is possible.
  - It returns, as a ghost out-parameter, the sequence of entries in the order it
    visited them. `IsEnumeration` says that sequence lists each entry of the map
    exactly once.
- **When the order does not matter.** The rendered page is proved independent of that
  order (`Template.OrderIndependent`) under two conditions:
  - the layout is well-formed, meaning brace-free text between placeholders whose keys
    are brace-free;
  - no metadata key or value contains a brace.

  Two lemmas show that neither condition can simply be dropped:
  - `Template.OrderMattersForNestedBraces`: a layout `{{{{ j }}k }}` renders differently
    in the two orders;
  - `Template.OrderMattersForBracedValues`: a value that is itself a placeholder
    renders differently in the two orders.
- **Heading order.** `markdown_to_html` tests `# ` before `## ` and before `### `.
  - The model follows that order in `Markdown.Element`.
  - `Markdown.CascadeOrderIrrelevant` proves the result is the same as testing the
    longest heading prefix first, because the three heading prefixes exclude each other.
- **The `content` key.** A metadata key named `content` is substituted inside the loop,
  before the fragment. On a well-formed layout with brace-free metadata, its value then
  takes the place of `{{ content }}`, and the fragment is dropped
  (`Template.ContentKeyShadowsFragment`). A value that itself holds `{{ content }}`
  still lets the fragment in (`Template.ContentValueLetsFragmentIn`).

## Model

| member | source | states |
|---|---|---|
| RustStr.TrimStartSpec | src/lib.rs:48 | trimming the start leaves a suffix of the text, removes only whitespace, and leaves no leading whitespace |
| RustStr.TrimEndSpec | src/lib.rs:48 | trimming the end leaves a prefix of the text, removes only whitespace, and leaves no trailing whitespace |
| RustStr.Trim | src/lib.rs:48 | the trimmed text is no longer than the input and has no whitespace at either end; it is empty exactly when the input is all whitespace |
| RustStr.TrimIdempotent | src/lib.rs:48 | trimming a trimmed text changes nothing |
| RustStr.TrimmedText | src/lib.rs:48 | a text with no whitespace at either end is its own trim |
| RustStr.TrimKeepsNonWhitespace | src/lib.rs:48 | a non-whitespace character of the text is still in its trim |
| RustStr.IndexOf | src/lib.rs:54 | the index found is that of the first occurrence of the character, or the length when the character does not occur |
| RustStr.SplitOnce | src/lib.rs:54 | there is no split exactly when the separator is absent; otherwise the text is the part before, the separator, and the part after, and the part before has no separator |
| RustStr.Lines | src/lib.rs:47 | no line holds a `\n`, and there are no lines exactly when the text is empty |
| RustStr.LinesOfCrlfLines | src/lib.rs:47 | lines with no `\n`, each followed by `\n`, split back into the same lines with one `\r` before each `\n` removed, so a `\r\n` ending counts as a line ending |
| RustStr.SingleLine | src/lib.rs:47 | a non-empty text with no `\n` is one line, any `\r` in it kept |
| RustStr.BareCarriageReturnKept | src/lib.rs:47 | for a text with no `\n` at all, a `\r` added at its end stays in the one line |
| RustStr.LinesOfUnlines | src/lib.rs:47 | lines with no `\n` and no trailing `\r`, each followed by `\n`, split back into the same lines |
| RustStr.UnlinesOfLines | src/lib.rs:47 | for a text with no `\r`, putting a `\n` after each of its lines gives the text back, with a final `\n` added when it lacks one |
| RustStr.UnlinesSnoc | src/lib.rs:58-59 | pushing one more line and its `\n` extends the joined text by exactly that |
| RustStr.StartsWith | src/lib.rs:70-76 | a text starts with a prefix exactly when it is that prefix followed by some rest |
| RustStr.Replace | src/lib.rs:92 | `replace` with the pattern as its own replacement leaves the text unchanged; the characterisation is in `RustStr.ReplaceAbsent`, `RustStr.ReplaceSplit` and `Template.ReplaceFlatten` |
| RustStr.ReplaceAbsent | src/lib.rs:92 | `replace` returns a text with no occurrence of the pattern unchanged |
| RustStr.ReplaceSplit | src/lib.rs:92 | for a non-empty pattern, `replace` distributes over a concatenation when no occurrence straddles the join |
| FrontMatter.Entry | src/lib.rs:54-55 | a line gives an entry exactly when it contains `:`; the key is the trimmed text before the first `:`, and the value is the trimmed text after it |
| FrontMatter.ReadLine | src/lib.rs:47-61 | one step of the loop: a delimiter flips the flag; inside the block a line may add its entry; outside the block the line is appended to the body |
| FrontMatter.ReadDelimiter | src/lib.rs:48-51 | after the lines read so far, reading a line that trims to `---` flips the flag and changes nothing else |
| FrontMatter.ReadEntry | src/lib.rs:53-56 | inside the block, a line with `:` inserts its trimmed key and value, overwriting an earlier entry for that key, and a line without `:` changes nothing |
| FrontMatter.ReadBody | src/lib.rs:57-60 | outside the block, a line is appended to the body followed by `\n` |
| FrontMatter.ParseFrontMatter | src/lib.rs:42-64 | the loop returns exactly the metadata map and body of the specification `Parse` |
| FrontMatter.ColonLineNoDelimiter | src/lib.rs:48-55 | a line holding `:` never trims to `---`, so a line that could give an entry never flips the toggle |
| FrontMatter.NoFrontMatter | src/lib.rs:47-61 | with no line trimming to `---`, the metadata is empty and the body is every line in order, each followed by `\n`; for a text with no `\r`, that is the input with a final `\n` ensured |
| FrontMatter.NoDelimiterLines | src/lib.rs:47-61 | with no delimiter line, no entry is recorded and every line is a body line |
| FrontMatter.BodyHasNoDelimiter | src/lib.rs:48-51 | every body line is a line of the input, and none trims to `---` |
| FrontMatter.BodyIsOutsideLines | src/lib.rs:48-60 | the body lines are exactly the lines read while the flag was off, in their original order |
| FrontMatter.NothingAfterOpenDelimiter | src/lib.rs:49-53 | after a delimiter that opens a block which is never closed, no later line reaches the body |
| FrontMatter.UnterminatedBlock | src/lib.rs:49-53 | when the last delimiter opens a block, the body is what was collected before that delimiter |
| FrontMatter.MetadataStep | src/lib.rs:53-56 | a line that declares a key sets that key's value; any other line leaves that key's presence and value as they were |
| FrontMatter.MetadataLastWins | src/lib.rs:53-56 | a key is in the metadata exactly when some line read inside a block declares it; its value is the value from the last such line |
| FrontMatter.MatchedBlock | src/lib.rs:47-61 | for a document that opens with a block closed once: the lines inside are read in front-matter mode, later lines are not, and the body is the lines after the block |
| FrontMatter.MatchedBlockMetadata | src/lib.rs:53-56 | for such a document, a key is present exactly when a line inside the block declares it, with the value of the last such line |
| FrontMatter.MatchedFrontMatterBody | src/lib.rs:47-61 | for a document that opens with a block closed once, the body is the lines after the closing delimiter, each followed by `\n` |
| FrontMatter.MatchedFrontMatterMetadata | src/lib.rs:53-56 | for such a document, a key is present exactly when a line inside the block has an entry with that key, and the value is that of the last such line |
| FrontMatter.OutsideSegment | src/lib.rs:57-60 | a run of non-delimiter lines read outside a block is appended to the body in order, and the metadata does not change |
| FrontMatter.InsideSegment | src/lib.rs:53-56 | a run of non-delimiter lines read inside a block adds nothing to the body |
| Markdown.Element | src/lib.rs:70-81 | the element for any line is a tag, starting with `<` and ending with `>`; which tag, for each case, is stated by `Markdown.Heading1` to `Markdown.Paragraph` |
| Markdown.CascadeOrderIrrelevant | src/lib.rs:70-75 | the three heading prefixes exclude each other, so testing them in the source's order or longest first gives the same element |
| Markdown.Heading1 | src/lib.rs:70-71 | `# X` becomes `<h1>X</h1>` and a newline |
| Markdown.Heading2 | src/lib.rs:72-73 | `## X` becomes `<h2>X</h2>` and a newline |
| Markdown.Heading3 | src/lib.rs:74-75 | `### X` becomes `<h3>X</h3>` and a newline |
| Markdown.ListItem | src/lib.rs:76-77 | `* X` becomes `<li>X</li>` and a newline |
| Markdown.BlankLine | src/lib.rs:78-79 | a line that is all whitespace becomes `<br/>` and a newline |
| Markdown.Paragraph | src/lib.rs:80-81 | any other line becomes `<p>`, the line verbatim and unescaped, `</p>` and a newline |
| Markdown.PushedElement | src/lib.rs:70-81 | the text pushed by the branch the source takes is the element for that line |
| Markdown.MarkdownToHtml | src/lib.rs:66-86 | the loop returns the specification `ToHtml`: the elements of the input's lines, in order |
| Markdown.ElementShape | src/lib.rs:70-81 | for a line with no `\n`, as every line `lines` yields is, the element holds no newline and does not end in `\r` |
| Markdown.ElementsSnoc | src/lib.rs:69-83 | converting one more line adds that line's element at the end |
| Markdown.HtmlIsUnlinedElements | src/lib.rs:69-83 | the output is the elements of the lines, in line order, each followed by `\n` |
| Markdown.OneElementPerLine | src/lib.rs:69-83 | the output has exactly as many lines as the input, and its k-th line is the element of the k-th input line |
| Template.RenderTemplate | src/lib.rs:88-98 | the loop visits every metadata entry exactly once, in some order, and the result is the specification `Render` for that order; with empty metadata the result is the template with `{{ content }}` replaced; a template without `{{ ` comes back unchanged; on a well-formed layout with brace-free metadata the result is the layout with every placeholder of a key in the map filled in, then `{{ content }}`, whatever the order |
| Template.Placeholder | src/lib.rs:92 | the text the `format!` builds for a key: `{{ `, the key, ` }}`; its shape and the fact that two brace-free placeholders overlap only when they coincide are stated by `Template.PlaceholderShape` and `Template.PlaceholderOverlap` |
| Template.PlaceholderShape | src/lib.rs:92 | for a brace-free key, the placeholder is six characters longer than the key, holds the key in its middle, has `{` only in its first two places and `}` only in its last two |
| Template.PlaceholderOverlap | src/lib.rs:92 | a brace-free placeholder can occur within another one's span only at its start, and then the keys are equal |
| Template.EnumerationSnoc | src/lib.rs:91 | visiting one more, new, key extends an enumeration of the map to one of the larger map |
| Template.EnumerationEmpty | src/lib.rs:91 | the loop visits nothing exactly when the map is empty |
| Template.EmptyMetadata | src/lib.rs:89-97 | with empty metadata, the page is the template with each `{{ content }}` replaced by the fragment |
| Template.SubstituteWithoutPlaceholders | src/lib.rs:91-93 | a template without `{{ ` is unchanged by the metadata loop |
| Template.NoPlaceholderLayout | src/lib.rs:89-97 | a template without `{{ ` is returned unchanged |
| Template.Resolve | src/lib.rs:92 | resolving keeps the number of pieces and resolves each piece on its own |
| Template.ReplaceFlatten | src/lib.rs:92 | on a well-formed layout and for a brace-free key, replacing that key's placeholder fills in exactly the pieces whose key matches |
| Template.ResolveStep | src/lib.rs:91-93 | filling in a new key after the earlier keys is the same as filling in all of them at once |
| Template.SubstituteResolves | src/lib.rs:91-93 | on a well-formed layout with brace-free metadata, the metadata loop fills in exactly the placeholders whose keys are in the map, whatever the order |
| Template.RenderResolves | src/lib.rs:91-95 | on a well-formed layout with brace-free metadata, the page is the layout with its metadata placeholders filled in, and then its content placeholders |
| Template.OrderIndependent | src/lib.rs:91-93 | on a well-formed layout with brace-free metadata, any two orders of visiting the map give the same page |
| Template.PlaceholdersApart | src/lib.rs:92 | occurrences of the placeholders of two different brace-free keys never overlap |
| Template.ReplaceKeepsPlaceholder | src/lib.rs:92 | for a brace-free `k`, replacing the placeholder of another brace-free key, by any value, keeps an occurrence of `{{ k }}`, right after the replaced text before it |
| Template.SubstituteKeepsPlaceholder | src/lib.rs:91-93 | for a brace-free `k`, the metadata loop keeps an occurrence of `{{ k }}` when every key it visits is brace-free and differs from `k` |
| Template.AbsentPlaceholderKept | src/lib.rs:91-95 | in any layout and whatever the values, a placeholder for a brace-free key that is absent from the map and is not `content` is still in the page, provided the map's keys are brace-free |
| Template.BracedKeySwallowsPlaceholder | src/lib.rs:91-95 | the key `a }}{{ k` has the placeholder `{{ a }}{{ k }}`, so the layout `{{ a }}{{ k }}` renders to the value alone and the absent key's `{{ k }}` is gone |
| Template.ContentKeyShadowsFragment | src/lib.rs:92-95 | on a well-formed layout with brace-free metadata, when the map has a `content` key, its value fills `{{ content }}` and the fragment is not inserted |
| Template.ContentValueLetsFragmentIn | src/lib.rs:92-95 | a `content` value that is itself `{{ content }}`, in a layout that is `{{ content }}`, renders to the fragment: the content key shadows the fragment only under the brace-free conditions |
| Template.RenderPageLayout | src/lib.rs:91-95 | when `head`, `middle`, `tail`, `key` and `value` are brace-free and `key` is not `content`, a layout `head {{ key }} middle {{ content }} tail` with `key` set to `value` renders to head, value, middle, fragment and tail, in any order |
| Template.WorkedExample | src/lib.rs:91-95 | the layout `<html>{{ title }}<body>{{ content }}</body></html>` with `title: Hi` and the fragment `<p>x</p>\n` renders to `<html>Hi<body><p>x</p>\n</body></html>` |
| Template.OrderMattersForNestedBraces | src/lib.rs:91-93 | the layout `{{{{ j }}k }}` with `j` a space and `k` set to `v` renders to `v` in one order and `{{ k }}` in the other |
| Template.OrderMattersForBracedValues | src/lib.rs:91-93 | the layout `{{ a }}{{ b }}`, with `a` set to `{{ b }}` and `b` set to `x`, renders to `xx` in one order and `{{ b }}x` in the other |
| Pipeline.RenderDocument | src/lib.rs:15-17 | parsing, converting and rendering one document gives the page of the specification functions, for the order in which its metadata was visited; a document without metadata puts the converted body into each `{{ content }}`; a layout without `{{ ` is the page as it is |
| Pipeline.EntryLine | src/lib.rs:54-55 | when the key has no `:`, neither key nor value has a `\n`, and both are already trimmed, a written `key: value` line reads back as that entry |
| Pipeline.DocumentMetadata | src/lib.rs:42-64 | for such a key and value, and body lines with no `\n`, no final `\r` and none trimming to `---`, a document with a one-entry front-matter block followed by those lines has that entry as its metadata |
| Pipeline.DocumentBody | src/lib.rs:42-64 | under the same conditions, the document's body is the lines after the block, each followed by `\n` |
| Pipeline.RenderedDocument | src/lib.rs:15-17 | under the same conditions, and when the key, the value and the layout text around the placeholders are brace-free and the key is not `content`: end to end, such a document in a layout with its key's placeholder and the content placeholder renders to the layout with the value and the converted body in place, in any order |

## Left out

- `generate_site` (src/lib.rs:6-40) is not modelled beyond the three calls it makes for each document (lines 15-17).
  - The directory walk and the `.md` extension test are left out.
  - So are the file reads and writes, `create_dir_all`, and path handling with `strip_prefix`, `join` and `with_extension`.
  - So is the `eprintln!` diagnostic.
  - These are file-system and path-library operations with no logic of the generator's own.
- `HashMap` hashing and its concrete iteration order are left out. `Template.RenderTemplate` may visit the entries in any order, which covers every order the map could produce.
- UTF-8 is not modelled: strings are sequences of characters. The byte slicing `&line[2..]`, `&line[3..]` and `&line[4..]` coincides with dropping 2, 3 and 4 characters, because the prefixes tested are ASCII.
- Allocation and string capacity are not modelled.
- Template.OrderIndependent: proved only for well-formed layouts with brace-free keys and values. `Template.OrderMattersForNestedBraces` and `Template.OrderMattersForBracedValues` show that the result depends on the order without these conditions.
- Template.AbsentPlaceholderKept: requires the metadata keys and the absent key to be brace-free. A key such as `a }}{{ k` has the placeholder `{{ a }}{{ k }}`, which swallows the `{{ k }}` of an absent key (`Template.BracedKeySwallowsPlaceholder`).
- FrontMatter.UnterminatedBlock: stated as "the last delimiter leaves the flag on" rather than as "an odd number of delimiter lines". The two agree because the flag flips once per delimiter.
- Template.ContentKeyShadowsFragment: stated under the same conditions as `OrderIndependent`. A `content` value that itself holds `{{ content }}` is replaced by the fragment in turn, so without them the fragment can still appear.
- Pipeline.RenderedDocument: stated for a document with a single front-matter entry in a layout with one metadata placeholder, with brace-free key, value and layout text, as `Template.OrderIndependent` needs. Documents in general are covered by `Pipeline.RenderDocument` together with the FrontMatter and Template lemmas.
