/**
 * `render_template`: substitutes each metadata value for its `{{ key }}`
 * placeholder, in the iteration order of the metadata map, then the content
 * fragment for `{{ content }}`. Every substitution is `str::replace` over the
 * whole page built so far.
 */
module Template {
  import opened RustStr

  /** The placeholder `{{ key }}` for a metadata key. */
  function Placeholder(key: string): string {
    "{{ " + key + " }}"
  }

  const ContentKey: string := "content"

  /** The layout after substituting `entries`, first entry first. */
  function Substitute(template: string, entries: seq<(string, string)>): string {
    if entries == [] then template
    else
      var (key, value) := entries[|entries| - 1];
      Replace(Substitute(template, entries[..|entries| - 1]), Placeholder(key), value)
  }

  /** The page for a layout, metadata visited in the order `entries`, and a content fragment. */
  function Render(template: string, entries: seq<(string, string)>, content: string): string {
    Replace(Substitute(template, entries), Placeholder(ContentKey), content)
  }

  /**
   * `entries` lists each entry of `metadata` exactly once, in some order:
   * the ways a `HashMap` can be iterated.
   */
  predicate IsEnumeration(entries: seq<(string, string)>, metadata: map<string, string>) {
    && (forall i :: 0 <= i < |entries| ==> entries[i].0 in metadata && metadata[entries[i].0] == entries[i].1)
    && (forall i, j :: 0 <= i < j < |entries| ==> entries[i].0 != entries[j].0)
    && (forall key :: key in metadata ==> exists i :: 0 <= i < |entries| && entries[i].0 == key)
  }

  /**
   * The renderer itself. The map's iteration order is not specified, so the
   * loop takes the keys in an arbitrary order; `entries` records the order
   * it took.
   */
  method RenderTemplate(template: string, metadata: map<string, string>, content: string)
    returns (html: string, ghost entries: seq<(string, string)>)
    ensures IsEnumeration(entries, metadata)
    ensures html == Render(template, entries, content)
    ensures metadata == map[] ==> html == Replace(template, Placeholder(ContentKey), content)
    ensures (forall i: nat :: !OccursAt(template, "{{ ", i)) ==> html == template
    ensures forall ps :: Flatten(ps) == template && WellFormed(ps) && BraceFreeMetadata(metadata) ==>
      html == Flatten(Resolve(Resolve(ps, metadata), map[ContentKey := content]))
  {
    html := template;
    entries := [];
    var remaining := metadata.Keys;
    while remaining != {}
      invariant remaining <= metadata.Keys
      invariant IsEnumeration(entries, metadata - remaining)
      invariant forall i :: 0 <= i < |entries| ==> entries[i].0 !in remaining
      invariant html == Substitute(template, entries)
      decreases remaining
    {
      var key :| key in remaining;
      var value := metadata[key];
      html := Replace(html, Placeholder(key), value);
      EnumerationSnoc(entries, metadata - remaining, key, value);
      assert (metadata - remaining)[key := value] == metadata - (remaining - {key});
      entries := entries + [(key, value)];
      remaining := remaining - {key};
    }
    assert metadata - remaining == metadata;
    html := Replace(html, Placeholder(ContentKey), content);
    if metadata == map[] {
      EmptyMetadata(template, entries, content);
    }
    if forall i: nat :: !OccursAt(template, "{{ ", i) {
      NoPlaceholderLayout(template, entries, content);
    }
    forall ps | Flatten(ps) == template && WellFormed(ps) && BraceFreeMetadata(metadata)
      ensures html == Flatten(Resolve(Resolve(ps, metadata), map[ContentKey := content]))
    {
      RenderResolves(ps, entries, metadata, content);
    }
  }

  /** Visiting one more key extends an enumeration of the keys visited so far. */
  lemma EnumerationSnoc(entries: seq<(string, string)>, metadata: map<string, string>, key: string, value: string)
    requires IsEnumeration(entries, metadata) && key !in metadata
    ensures IsEnumeration(entries + [(key, value)], metadata[key := value])
  {
    var e, m := entries + [(key, value)], metadata[key := value];
    forall k | k in m ensures exists i :: 0 <= i < |e| && e[i].0 == k {
      if k == key {
        assert e[|entries|].0 == k;
      } else {
        var i :| 0 <= i < |entries| && entries[i].0 == k;
        assert e[i].0 == k;
      }
    }
  }

  /** An enumeration is empty exactly when its map is. */
  lemma EnumerationEmpty(entries: seq<(string, string)>, metadata: map<string, string>)
    requires IsEnumeration(entries, metadata)
    ensures entries == [] <==> metadata == map[]
  {
    if entries != [] {
      assert entries[0].0 in metadata;
    }
    if metadata != map[] {
      var key :| key in metadata;
    }
  }

  /** With no metadata only the content placeholder is replaced. */
  lemma EmptyMetadata(template: string, entries: seq<(string, string)>, content: string)
    requires IsEnumeration(entries, map[])
    ensures Render(template, entries, content) == Replace(template, Placeholder(ContentKey), content)
  {
    EnumerationEmpty(entries, map[]);
  }

  /** Every placeholder starts with `{{ `, so where that never occurs no placeholder does. */
  lemma NoPlaceholderIn(s: string, key: string)
    requires forall i: nat :: !OccursAt(s, "{{ ", i)
    ensures forall i: nat :: !OccursAt(s, Placeholder(key), i)
  {
    forall i: nat | OccursAt(s, Placeholder(key), i) ensures false {
      assert s[i..i + 3] == Placeholder(key)[..3];
      assert OccursAt(s, "{{ ", i);
    }
  }

  lemma {:induction false} SubstituteWithoutPlaceholders(template: string, entries: seq<(string, string)>)
    requires forall i: nat :: !OccursAt(template, "{{ ", i)
    ensures Substitute(template, entries) == template
  {
    if entries != [] {
      SubstituteWithoutPlaceholders(template, entries[..|entries| - 1]);
      var (key, value) := entries[|entries| - 1];
      NoPlaceholderIn(template, key);
      ReplaceAbsent(template, Placeholder(key), value);
    }
  }

  /** A layout in which `{{ ` never occurs is returned unchanged, whatever the metadata and content. */
  lemma NoPlaceholderLayout(template: string, entries: seq<(string, string)>, content: string)
    requires forall i: nat :: !OccursAt(template, "{{ ", i)
    ensures Render(template, entries, content) == template
  {
    SubstituteWithoutPlaceholders(template, entries);
    NoPlaceholderIn(template, ContentKey);
    ReplaceAbsent(template, Placeholder(ContentKey), content);
  }

  // A layout read as literal text and placeholders.

  predicate BraceFree(s: string) {
    '{' !in s && '}' !in s
  }

  datatype Piece = Text(text: string) | Token(key: string)

  function PieceText(p: Piece): string {
    match p
    case Text(t) => t
    case Token(key) => Placeholder(key)
  }

  function Flatten(ps: seq<Piece>): string {
    if ps == [] then "" else PieceText(ps[0]) + Flatten(ps[1..])
  }

  /** Literal text and placeholder keys without braces. */
  predicate WellFormed(ps: seq<Piece>) {
    forall i :: 0 <= i < |ps| ==> BraceFree(if ps[i].Text? then ps[i].text else ps[i].key)
  }

  function ResolvePiece(p: Piece, metadata: map<string, string>): Piece {
    if p.Token? && p.key in metadata then Text(metadata[p.key]) else p
  }

  /** Each placeholder whose key is in `metadata` turned into its value; the others kept. */
  function Resolve(ps: seq<Piece>, metadata: map<string, string>): (r: seq<Piece>)
    ensures |r| == |ps|
    ensures forall i :: 0 <= i < |ps| ==> r[i] == ResolvePiece(ps[i], metadata)
  {
    if ps == [] then [] else [ResolvePiece(ps[0], metadata)] + Resolve(ps[1..], metadata)
  }

  /** A placeholder opens with `{{`, closes with `}}`, and has no other brace. */
  lemma PlaceholderShape(key: string)
    requires BraceFree(key)
    ensures var t := Placeholder(key);
      && |t| == |key| + 6 && t[0] == '{' && t[1] == '{' && t[3..|t| - 3] == key
      && (forall j :: 0 <= j < |t| ==> (t[j] == '{' <==> j < 2))
      && (forall j :: 0 <= j < |t| ==> (t[j] == '}' <==> j >= |t| - 2))
  {
    var t := Placeholder(key);
    forall j | 3 <= j < |key| + 3 ensures t[j] != '{' && t[j] != '}' {
      assert t[j] == key[j - 3];
    }
  }

  /**
   * A placeholder with a brace-free key can occur inside another placeholder
   * with a brace-free key only at its start, and only if the two are equal.
   */
  lemma PlaceholderOverlap(w: string, k: string, rest: string, i: nat)
    requires BraceFree(w) && BraceFree(k)
    requires i < |Placeholder(w)| && OccursAt(Placeholder(w) + rest, Placeholder(k), i)
    ensures i == 0 && k == w
  {
    OverlapAtStart(w, k, rest, i);
    OverlapSameKey(w, k, rest);
  }

  /** Only the opening `{{` of a placeholder can start another placeholder. */
  lemma OverlapAtStart(w: string, k: string, rest: string, i: nat)
    requires BraceFree(w) && BraceFree(k)
    requires i < |Placeholder(w)| && OccursAt(Placeholder(w) + rest, Placeholder(k), i)
    ensures i == 0
  {
    var t, p := Placeholder(w), Placeholder(k);
    var s := t + rest;
    PlaceholderShape(w);
    PlaceholderShape(k);
    assert s[i] == p[0] by {
      assert s[i..i + |p|][0] == s[i];
    }
    assert s[i + 1] == p[1] by {
      assert s[i..i + |p|][1] == s[i + 1];
    }
    assert s[i] == t[i];
    assert i < 2;
    assert s[i + 1] == t[i + 1];
  }

  /** A placeholder that starts where another one starts is that placeholder. */
  lemma OverlapSameKey(w: string, k: string, rest: string)
    requires BraceFree(w) && BraceFree(k)
    requires OccursAt(Placeholder(w) + rest, Placeholder(k), 0)
    ensures k == w
  {
    var t, p := Placeholder(w), Placeholder(k);
    var s := t + rest;
    PlaceholderShape(w);
    PlaceholderShape(k);
    assert s[..|p|] == p;
    assert forall j :: 0 <= j < |p| ==> s[j] == p[j] by {
      forall j | 0 <= j < |p| ensures s[j] == p[j] {
        assert s[..|p|][j] == s[j];
      }
    }
    assert forall j :: 0 <= j < |t| ==> s[j] == t[j];
    assert |p| == |t| by {
      assert s[|p| - 2] == '}';
      assert |t| - 2 < |p| ==> s[|t| - 2] == p[|t| - 2];
    }
    assert k == p[3..|p| - 3] == s[3..|t| - 3] == t[3..|t| - 3] == w;
  }

  lemma NoOccurrenceInBraceFree(t: string, rest: string, key: string, i: nat)
    requires BraceFree(t) && i < |t|
    ensures !OccursAt(t + rest, Placeholder(key), i)
  {
    assert (t + rest)[i] == t[i];
    assert t[i] in t;
    assert Placeholder(key)[0] == '{';
  }

  /** Replacing one placeholder in a flattened well-formed layout replaces its tokens. */
  lemma {:induction false} ReplaceFlatten(ps: seq<Piece>, key: string, value: string)
    requires WellFormed(ps) && BraceFree(key)
    ensures Replace(Flatten(ps), Placeholder(key), value) == Flatten(Resolve(ps, map[key := value]))
  {
    if ps != [] {
      var a, b := PieceText(ps[0]), Flatten(ps[1..]);
      var p := Placeholder(key);
      assert Flatten(ps) == a + b;
      assert WellFormed(ps[1..]) by {
        forall i | 0 <= i < |ps[1..]| ensures BraceFree(if ps[1..][i].Text? then ps[1..][i].text else ps[1..][i].key) {
          assert ps[1..][i] == ps[i + 1];
        }
      }
      assert BraceFree(if ps[0].Text? then ps[0].text else ps[0].key);
      forall i: nat | i < |a| < i + |p| ensures !OccursAt(a + b, p, i) {
        match ps[0]
        case Text(t) => NoOccurrenceInBraceFree(t, b, key, i);
        case Token(w) =>
          if OccursAt(a + b, p, i) {
            PlaceholderOverlap(w, key, b, i);
          }
      }
      ReplaceSplit(a, b, p, value);
      ReplaceFlatten(ps[1..], key, value);
      match ps[0]
      case Text(t) =>
        forall i: nat ensures !OccursAt(t, p, i) {
          if i < |t| {
            NoOccurrenceInBraceFree(t, [], key, i);
            assert t + [] == t;
          }
        }
        ReplaceAbsent(t, p, value);
      case Token(w) =>
        if w == key {
          assert Replace(a, p, value) == value + Replace([], p, value);
        } else {
          forall i: nat ensures !OccursAt(a, p, i) {
            if OccursAt(a, p, i) {
              assert a + [] == a;
              PlaceholderOverlap(w, key, [], i);
            }
          }
          ReplaceAbsent(a, p, value);
        }
    }
  }

  lemma {:induction false} ResolveStep(ps: seq<Piece>, metadata: map<string, string>, key: string, value: string)
    requires key !in metadata
    ensures Resolve(Resolve(ps, metadata), map[key := value]) == Resolve(ps, metadata[key := value])
  {
  }

  lemma ResolveWellFormed(ps: seq<Piece>, metadata: map<string, string>)
    requires WellFormed(ps)
    requires forall key :: key in metadata ==> BraceFree(metadata[key])
    ensures WellFormed(Resolve(ps, metadata))
  {
  }

  /** Keys and values without braces. */
  predicate BraceFreeMetadata(metadata: map<string, string>) {
    forall key :: key in metadata ==> BraceFree(key) && BraceFree(metadata[key])
  }

  /** Dropping the last entry of an enumeration enumerates the map without its key. */
  lemma EnumerationInit(entries: seq<(string, string)>, metadata: map<string, string>)
    requires IsEnumeration(entries, metadata) && entries != []
    ensures var (key, value) := entries[|entries| - 1];
      && key in metadata && metadata[key] == value
      && IsEnumeration(entries[..|entries| - 1], metadata - {key})
      && (metadata - {key})[key := value] == metadata
  {
    var n := |entries| - 1;
    var key := entries[n].0;
    var rest := metadata - {key};
    forall k | k in rest ensures exists i :: 0 <= i < n && entries[..n][i].0 == k {
      var i :| 0 <= i < |entries| && entries[i].0 == k;
      assert i != n && entries[..n][i].0 == k;
    }
  }

  lemma {:induction false} SubstituteResolves(ps: seq<Piece>, entries: seq<(string, string)>, metadata: map<string, string>)
    requires WellFormed(ps) && BraceFreeMetadata(metadata)
    requires IsEnumeration(entries, metadata)
    ensures Substitute(Flatten(ps), entries) == Flatten(Resolve(ps, metadata))
  {
    if entries == [] {
      EnumerationEmpty(entries, metadata);
      assert Resolve(ps, metadata) == ps;
    } else {
      var n := |entries| - 1;
      var (key, value) := entries[n];
      var rest := metadata - {key};
      EnumerationInit(entries, metadata);
      SubstituteResolves(ps, entries[..n], rest);
      ResolveWellFormed(ps, rest);
      ReplaceFlatten(Resolve(ps, rest), key, value);
      ResolveStep(ps, rest, key, value);
    }
  }

  /**
   * For a layout made of brace-free text and placeholders with brace-free
   * keys, and metadata whose keys and values have no braces, the page is the
   * layout with every placeholder of a present key turned into its value,
   * then every remaining `{{ content }}` into the fragment: the same page
   * for every iteration order of the map.
   */
  lemma RenderResolves(ps: seq<Piece>, entries: seq<(string, string)>, metadata: map<string, string>, content: string)
    requires WellFormed(ps) && BraceFreeMetadata(metadata)
    requires IsEnumeration(entries, metadata)
    ensures Render(Flatten(ps), entries, content)
         == Flatten(Resolve(Resolve(ps, metadata), map[ContentKey := content]))
  {
    SubstituteResolves(ps, entries, metadata);
    ResolveWellFormed(ps, metadata);
    ReplaceFlatten(Resolve(ps, metadata), ContentKey, content);
  }

  /** Under the same conditions the iteration order of the map has no effect on the page. */
  lemma OrderIndependent(ps: seq<Piece>, e1: seq<(string, string)>, e2: seq<(string, string)>,
                         metadata: map<string, string>, content: string)
    requires WellFormed(ps) && BraceFreeMetadata(metadata)
    requires IsEnumeration(e1, metadata) && IsEnumeration(e2, metadata)
    ensures Render(Flatten(ps), e1, content) == Render(Flatten(ps), e2, content)
  {
    RenderResolves(ps, e1, metadata, content);
    RenderResolves(ps, e2, metadata, content);
  }

  lemma {:induction false} FlattenAppend(xs: seq<Piece>, ys: seq<Piece>)
    ensures Flatten(xs + ys) == Flatten(xs) + Flatten(ys)
  {
    if xs != [] {
      assert (xs + ys)[1..] == xs[1..] + ys;
      FlattenAppend(xs[1..], ys);
    } else {
      assert xs + ys == ys;
    }
  }

  /** No metadata key holds a brace. */
  predicate BraceFreeKeys(metadata: map<string, string>) {
    forall key :: key in metadata ==> BraceFree(key)
  }

  /** Occurrences of the placeholders of two different brace-free keys never overlap. */
  lemma PlaceholdersApart(s: string, y: string, k: string, i: nat, p: nat)
    requires BraceFree(y) && BraceFree(k) && y != k
    requires OccursAt(s, Placeholder(y), i) && OccursAt(s, Placeholder(k), p)
    ensures i + |Placeholder(y)| <= p || p + |Placeholder(k)| <= i
  {
    var py, pk := Placeholder(y), Placeholder(k);
    if p <= i < p + |pk| {
      assert s[p..] == pk + s[p + |pk|..];
      OccursAtDrop(s, py, p, i - p);
      PlaceholderOverlap(k, y, s[p + |pk|..], i - p);
    } else if i < p < i + |py| {
      assert s[i..] == py + s[i + |py|..];
      OccursAtDrop(s, pk, i, p - i);
      PlaceholderOverlap(y, k, s[i + |py|..], p - i);
    }
  }

  /** A placeholder has no occurrence of the placeholder of another brace-free key. */
  lemma PlaceholderHasNoOther(k: string, y: string)
    requires BraceFree(k) && BraceFree(y) && k != y
    ensures forall i: nat :: !OccursAt(Placeholder(k), Placeholder(y), i)
  {
    forall i: nat | OccursAt(Placeholder(k), Placeholder(y), i) ensures false {
      assert Placeholder(k) + [] == Placeholder(k);
      PlaceholderOverlap(k, y, [], i);
    }
  }

  /**
   * Replacing the placeholder of another brace-free key, by any value, leaves
   * an occurrence of `{{ k }}` in place: it stands right after the replaced
   * text before it.
   */
  lemma ReplaceKeepsPlaceholder(s: string, p: nat, k: string, y: string, v: string)
    requires BraceFree(k) && BraceFree(y) && k != y
    requires OccursAt(s, Placeholder(k), p)
    ensures OccursAt(Replace(s, Placeholder(y), v), Placeholder(k), |Replace(s[..p], Placeholder(y), v)|)
  {
    var py, pk := Placeholder(y), Placeholder(k);
    var a, rest := s[..p], s[p + |pk|..];
    assert s == a + (pk + rest);
    forall i: nat | i < |a| < i + |py| ensures !OccursAt(a + (pk + rest), py, i) {
      if OccursAt(s, py, i) {
        PlaceholdersApart(s, y, k, i, p);
      }
    }
    ReplaceSplit(a, pk + rest, py, v);
    forall i: nat | i < |pk| < i + |py| ensures !OccursAt(pk + rest, py, i) {
      if OccursAt(pk + rest, py, i) {
        PlaceholderOverlap(k, y, rest, i);
      }
    }
    ReplaceSplit(pk, rest, py, v);
    PlaceholderHasNoOther(k, y);
    ReplaceAbsent(pk, py, v);
    OccursAtJoin(Replace(a, py, v), pk, Replace(rest, py, v));
  }

  /** The metadata loop leaves `{{ k }}` in the page when no visited key is `k` and all are brace-free. */
  lemma {:induction false} SubstituteKeepsPlaceholder(template: string, entries: seq<(string, string)>, k: string, p: nat)
    requires BraceFree(k) && OccursAt(template, Placeholder(k), p)
    requires forall i :: 0 <= i < |entries| ==> BraceFree(entries[i].0) && entries[i].0 != k
    ensures exists q: nat :: OccursAt(Substitute(template, entries), Placeholder(k), q)
  {
    if entries == [] {
      assert OccursAt(Substitute(template, entries), Placeholder(k), p);
    } else {
      var n := |entries| - 1;
      var earlier := entries[..n];
      assert forall i :: 0 <= i < |earlier| ==> earlier[i] == entries[i];
      SubstituteKeepsPlaceholder(template, earlier, k, p);
      var q: nat :| OccursAt(Substitute(template, earlier), Placeholder(k), q);
      var (key, value) := entries[n];
      var t := Substitute(template, earlier);
      ReplaceKeepsPlaceholder(t, q, k, key, value);
      assert Substitute(template, entries) == Replace(t, Placeholder(key), value);
      assert OccursAt(Substitute(template, entries), Placeholder(k), |Replace(t[..q], Placeholder(key), value)|);
    }
  }

  /**
   * A placeholder whose key is neither in the metadata nor `content` is still
   * in the page, in any layout and whatever the values, as long as the keys
   * are brace-free.
   */
  lemma AbsentPlaceholderKept(template: string, entries: seq<(string, string)>, metadata: map<string, string>,
                              content: string, k: string, p: nat)
    requires IsEnumeration(entries, metadata) && BraceFreeKeys(metadata)
    requires BraceFree(k) && k !in metadata && k != ContentKey
    requires OccursAt(template, Placeholder(k), p)
    ensures exists q: nat :: OccursAt(Render(template, entries, content), Placeholder(k), q)
  {
    forall i | 0 <= i < |entries| ensures BraceFree(entries[i].0) && entries[i].0 != k {
      assert entries[i].0 in metadata;
    }
    SubstituteKeepsPlaceholder(template, entries, k, p);
    var q: nat :| OccursAt(Substitute(template, entries), Placeholder(k), q);
    ContentKeyBraceFree();
    var t := Substitute(template, entries);
    ReplaceKeepsPlaceholder(t, q, k, ContentKey, content);
    assert OccursAt(Render(template, entries, content), Placeholder(k), |Replace(t[..q], Placeholder(ContentKey), content)|);
  }

  lemma ContentKeyBraceFree()
    ensures BraceFree(ContentKey)
  {
  }

  lemma {:induction false} ResolveNoToken(ps: seq<Piece>, key: string, value: string)
    requires forall i :: 0 <= i < |ps| ==> ps[i] != Token(key)
    ensures Resolve(ps, map[key := value]) == ps
  {
  }

  /**
   * A metadata key named `content` is substituted before the fragment, so
   * the fragment then never reaches the page.
   */
  lemma ContentKeyShadowsFragment(ps: seq<Piece>, entries: seq<(string, string)>, metadata: map<string, string>,
                                  content: string)
    requires WellFormed(ps) && BraceFreeMetadata(metadata)
    requires IsEnumeration(entries, metadata) && ContentKey in metadata
    ensures Render(Flatten(ps), entries, content) == Flatten(Resolve(ps, metadata))
  {
    RenderResolves(ps, entries, metadata, content);
    ResolveNoToken(Resolve(ps, metadata), ContentKey, content);
  }

  /**
   * Without the brace-free condition a `content` value does not always shadow
   * the fragment: a value that is itself `{{ content }}` puts the placeholder
   * back, and the fragment replaces it.
   */
  lemma ContentValueLetsFragmentIn(fragment: string)
    ensures IsEnumeration([(ContentKey, Placeholder(ContentKey))], map[ContentKey := Placeholder(ContentKey)])
    ensures Render(Placeholder(ContentKey), [(ContentKey, Placeholder(ContentKey))], fragment) == fragment
  {
    var p := Placeholder(ContentKey);
    var entries := [(ContentKey, p)];
    assert entries[..0] == [];
    assert Substitute(p, entries) == Replace(p, p, p);
    ReplaceWhole(p, fragment);
  }

  /**
   * Why the keys must be brace-free: the key `a }}{{ k` has the placeholder
   * `{{ a }}{{ k }}`, so substituting it swallows the `{{ k }}` of an absent key.
   */
  lemma BracedKeySwallowsPlaceholder()
    ensures OccursAt("{{ a }}{{ k }}", Placeholder("k"), 7)
    ensures IsEnumeration([("a }}{{ k", "v")], map["a }}{{ k" := "v"])
    ensures Render("{{ a }}{{ k }}", [("a }}{{ k", "v")], "") == "v"
  {
    var p := Placeholder("a }}{{ k");
    assert p == "{{ a }}{{ k }}";
    assert "{{ a }}{{ k }}"[7..14] == Placeholder("k");
    var entries := [("a }}{{ k", "v")];
    assert entries[..0] == [];
    assert Substitute(p, entries) == Replace(p, p, "v");
    ReplaceWhole(p, "v");
    NoContentInV();
  }

  lemma FlattenCons(p: Piece, ps: seq<Piece>)
    ensures Flatten([p] + ps) == PieceText(p) + Flatten(ps)
  {
    assert ([p] + ps)[1..] == ps;
  }

  lemma FlattenPair(p: Piece, q: Piece)
    ensures Flatten([p, q]) == PieceText(p) + PieceText(q)
  {
    assert [p, q][1..] == [q];
    assert [q][1..] == [];
    assert Flatten([q]) == PieceText(q) + Flatten([]);
  }

  /** Two distinct keys listed in either order enumerate their map. */
  lemma PairEnumeration(k1: string, v1: string, k2: string, v2: string)
    requires k1 != k2
    ensures IsEnumeration([(k1, v1), (k2, v2)], map[k1 := v1, k2 := v2])
    ensures IsEnumeration([(k2, v2), (k1, v1)], map[k1 := v1, k2 := v2])
  {
    var m := map[k1 := v1, k2 := v2];
    forall key | key in m ensures exists i :: 0 <= i < 2 && [(k1, v1), (k2, v2)][i].0 == key {
      assert key == k1 || key == k2;
      assert [(k1, v1), (k2, v2)][0].0 == k1;
      assert [(k1, v1), (k2, v2)][1].0 == k2;
    }
    forall key | key in m ensures exists i :: 0 <= i < 2 && [(k2, v2), (k1, v1)][i].0 == key {
      assert key == k1 || key == k2;
      assert [(k2, v2), (k1, v1)][0].0 == k2;
      assert [(k2, v2), (k1, v1)][1].0 == k1;
    }
  }

  /** Two substitutions, the first entry first. */
  lemma SubstitutePair(template: string, e1: (string, string), e2: (string, string))
    ensures Substitute(template, [e1, e2])
         == Replace(Replace(template, Placeholder(e1.0), e1.1), Placeholder(e2.0), e2.1)
  {
    assert [e1, e2][..1] == [e1];
    assert [e1][..0] == [];
    assert Substitute(template, [e1]) == Replace(template, Placeholder(e1.0), e1.1);
  }

  /** A layout with one metadata placeholder and the content placeholder, between texts. */
  function PageLayout(head: string, key: string, middle: string, tail: string): seq<Piece> {
    [Text(head), Token(key), Text(middle), Token(ContentKey), Text(tail)]
  }

  // `FlattenSnoc` and its fixed-length instances below take the five-piece layout
  // apart one piece at a time, so that no single proof unfolds `Flatten` five times.

  lemma FlattenSnoc(ps: seq<Piece>, p: Piece)
    ensures Flatten(ps + [p]) == Flatten(ps) + PieceText(p)
  {
    FlattenAppend(ps, [p]);
    FlattenCons(p, []);
    assert [p] + [] == [p];
  }

  lemma FlattenSnocThree(p0: Piece, p1: Piece, p2: Piece)
    ensures Flatten([p0, p1, p2]) == Flatten([p0, p1]) + PieceText(p2)
  {
    FlattenSnoc([p0, p1], p2);
    assert [p0, p1] + [p2] == [p0, p1, p2];
  }

  lemma FlattenSnocFour(p0: Piece, p1: Piece, p2: Piece, p3: Piece)
    ensures Flatten([p0, p1, p2, p3]) == Flatten([p0, p1, p2]) + PieceText(p3)
  {
    FlattenSnoc([p0, p1, p2], p3);
    assert [p0, p1, p2] + [p3] == [p0, p1, p2, p3];
  }

  lemma FlattenSnocFive(p0: Piece, p1: Piece, p2: Piece, p3: Piece, p4: Piece)
    ensures Flatten([p0, p1, p2, p3, p4]) == Flatten([p0, p1, p2, p3]) + PieceText(p4)
  {
    FlattenSnoc([p0, p1, p2, p3], p4);
    assert [p0, p1, p2, p3] + [p4] == [p0, p1, p2, p3, p4];
  }

  lemma FlattenFive(p0: Piece, p1: Piece, p2: Piece, p3: Piece, p4: Piece)
    ensures Flatten([p0, p1, p2, p3, p4])
         == PieceText(p0) + PieceText(p1) + PieceText(p2) + PieceText(p3) + PieceText(p4)
  {
    FlattenPair(p0, p1);
    FlattenSnocThree(p0, p1, p2);
    FlattenSnocFour(p0, p1, p2, p3);
    FlattenSnocFive(p0, p1, p2, p3, p4);
  }

  lemma PageLayoutText(head: string, key: string, middle: string, tail: string)
    ensures Flatten(PageLayout(head, key, middle, tail))
         == head + Placeholder(key) + middle + Placeholder(ContentKey) + tail
  {
    FlattenFive(Text(head), Token(key), Text(middle), Token(ContentKey), Text(tail));
  }

  lemma PageLayoutResolved(head: string, key: string, value: string, middle: string, tail: string, fragment: string)
    requires key != ContentKey
    ensures Flatten(Resolve(Resolve(PageLayout(head, key, middle, tail), map[key := value]), map[ContentKey := fragment]))
         == head + value + middle + fragment + tail
  {
    ResolveLayoutKey(head, key, value, middle, tail);
    ResolveLayoutContent(head, value, middle, tail, fragment);
    FlattenFive(Text(head), Text(value), Text(middle), Text(fragment), Text(tail));
  }

  lemma ResolveLayoutKey(head: string, key: string, value: string, middle: string, tail: string)
    requires key != ContentKey
    ensures Resolve(PageLayout(head, key, middle, tail), map[key := value])
         == [Text(head), Text(value), Text(middle), Token(ContentKey), Text(tail)]
  {
  }

  lemma ResolveLayoutContent(head: string, value: string, middle: string, tail: string, fragment: string)
    ensures Resolve([Text(head), Text(value), Text(middle), Token(ContentKey), Text(tail)], map[ContentKey := fragment])
         == [Text(head), Text(value), Text(middle), Text(fragment), Text(tail)]
  {
  }

  lemma PageLayoutWellFormed(head: string, key: string, middle: string, tail: string)
    requires BraceFree(head) && BraceFree(key) && BraceFree(middle) && BraceFree(tail)
    ensures WellFormed(PageLayout(head, key, middle, tail))
  {
    assert BraceFree(ContentKey);
  }

  /** A layout with one metadata placeholder and the content placeholder, rendered. */
  lemma RenderPageLayout(head: string, key: string, value: string, middle: string, tail: string,
                         fragment: string, entries: seq<(string, string)>)
    requires BraceFree(head) && BraceFree(key) && BraceFree(middle) && BraceFree(tail)
    requires BraceFree(value) && key != ContentKey
    requires IsEnumeration(entries, map[key := value])
    ensures Render(head + Placeholder(key) + middle + Placeholder(ContentKey) + tail, entries, fragment)
         == head + value + middle + fragment + tail
  {
    var ps := PageLayout(head, key, middle, tail);
    PageLayoutWellFormed(head, key, middle, tail);
    PageLayoutText(head, key, middle, tail);
    RenderResolves(ps, entries, map[key := value], fragment);
    PageLayoutResolved(head, key, value, middle, tail, fragment);
  }

  /** The layout `<html>{{ title }}<body>{{ content }}</body></html>` with `title` set to `Hi`. */
  lemma WorkedExample(entries: seq<(string, string)>)
    requires IsEnumeration(entries, map["title" := "Hi"])
    ensures Render("<html>" + "{{ title }}" + "<body>" + "{{ content }}" + "</body></html>", entries, "<p>x</p>\n")
         == "<html>" + "Hi" + "<body>" + "<p>x</p>\n" + "</body></html>"
  {
    WorkedExampleLiterals();
    RenderPageLayout("<html>", "title", "Hi", "<body>", "</body></html>", "<p>x</p>\n", entries);
  }

  // The facts about literal strings are proved on their own, here and in
  // `NoContentInV`, `NoContentInK` and `BracedValueLiterals`, and the lemmas about
  // concrete pages use them instead of unfolding the literals inside larger proofs.
  lemma WorkedExampleLiterals()
    ensures BraceFree("<html>") && BraceFree("title") && BraceFree("<body>") && BraceFree("</body></html>")
    ensures BraceFree("Hi") && "title" != ContentKey
    ensures Placeholder("title") == "{{ title }}" && Placeholder(ContentKey) == "{{ content }}"
  {
  }

  /** A placeholder right after `{{` and before a short text is replaced where it stands. */
  lemma ReplaceAfterBraces(key: string, value: string, tail: string)
    requires BraceFree(key) && |tail| < |Placeholder(key)|
    ensures Replace("{{" + Placeholder(key) + tail, Placeholder(key), value) == "{{" + value + tail
  {
    var p := Placeholder(key);
    var s := "{{" + p + tail;
    PlaceholderShape(key);
    assert s == "{{" + (p + tail);
    assert s[2] == '{' && s[3] == '{';
    forall i: nat | i < 2 < i + |p| ensures !OccursAt(s, p, i) {
      assert s[i..i + |p|][2] == s[i + 2];
    }
    ReplaceSplit("{{", p + tail, p, value);
    forall i: nat | i < |p| < i + |p| ensures !OccursAt(p + tail, p, i) {
      if OccursAt(p + tail, p, i) {
        PlaceholderOverlap(key, key, tail, i);
      }
    }
    ReplaceSplit(p, tail, p, value);
    assert Replace(p, p, value) == value + Replace([], p, value);
  }

  /** Substituting `j` in `{{{{ j }}k }}` joins `{{` and `k }}` into `{{ k }}`. */
  lemma NestedBracesJoin()
    ensures Replace("{{{{ j }}k }}", Placeholder("j"), " ") == Placeholder("k")
  {
    assert "{{{{ j }}k }}" == "{{" + Placeholder("j") + "k }}";
    ReplaceAfterBraces("j", " ", "k }}");
    assert "{{" + " " + "k }}" == Placeholder("k");
  }

  /** `{{ k }}` does not occur in `{{{{ j }}k }}`. */
  lemma NestedBracesHideK()
    ensures Replace("{{{{ j }}k }}", Placeholder("k"), "v") == "{{{{ j }}k }}"
  {
    var t, pk := "{{{{ j }}k }}", Placeholder("k");
    forall i: nat ensures !OccursAt(t, pk, i) {
      if i + 7 <= 13 {
        assert t[i..i + 7][3] == t[i + 3];
        assert t[i + 3] == 'k' ==> i == 6;
        assert t[6] == ' ';
      }
    }
    ReplaceAbsent(t, pk, "v");
  }

  /** Rendering with two entries and empty content, one replacement at a time. */
  lemma RenderPair(template: string, e1: (string, string), e2: (string, string), s1: string, s2: string, r: string)
    requires Replace(template, Placeholder(e1.0), e1.1) == s1
    requires Replace(s1, Placeholder(e2.0), e2.1) == s2
    requires Replace(s2, Placeholder(ContentKey), "") == r
    ensures Render(template, [e1, e2], "") == r
  {
    SubstitutePair(template, e1, e2);
  }

  /** Substituting `j` first joins `{{ k }}`, which substituting `k` then replaces. */
  lemma NestedBracesJFirst()
    ensures Render("{{{{ j }}k }}", [("j", " "), ("k", "v")], "") == "v"
  {
    NestedBracesJoin();
    ReplaceWhole(Placeholder("k"), "v");
    NoContentInV();
    RenderPair("{{{{ j }}k }}", ("j", " "), ("k", "v"), Placeholder("k"), "v", "v");
  }

  lemma ReplaceWhole(p: string, value: string)
    requires p != []
    ensures Replace(p, p, value) == value
  {
    assert Replace(p, p, value) == value + Replace([], p, value);
  }

  /** No `{{ content }}` occurs in the value `v`. */
  lemma NoContentInV()
    ensures Replace("v", Placeholder(ContentKey), "") == "v"
  {
  }

  /** Substituting `k` first finds nothing; substituting `j` then leaves `{{ k }}`. */
  lemma NestedBracesKFirst()
    ensures Render("{{{{ j }}k }}", [("k", "v"), ("j", " ")], "") == "{{ k }}"
  {
    NestedBracesHideK();
    NestedBracesJoin();
    NoContentInK();
    RenderPair("{{{{ j }}k }}", ("k", "v"), ("j", " "), "{{{{ j }}k }}", Placeholder("k"), Placeholder("k"));
  }

  /** No `{{ content }}` occurs in `{{ k }}`. */
  lemma NoContentInK()
    ensures Replace(Placeholder("k"), Placeholder(ContentKey), "") == Placeholder("k")
    ensures Placeholder("k") == "{{ k }}"
  {
    var pk := Placeholder("k");
    assert Replace(pk, Placeholder(ContentKey), "") == pk;
  }

  /**
   * Without the side conditions the iteration order shows. A layout that is
   * not well formed: substituting `j` first creates the `{{ k }}` that
   * substituting `k` first had not found.
   */
  lemma OrderMattersForNestedBraces()
    ensures IsEnumeration([("j", " "), ("k", "v")], map["j" := " ", "k" := "v"])
    ensures IsEnumeration([("k", "v"), ("j", " ")], map["j" := " ", "k" := "v"])
    ensures Render("{{{{ j }}k }}", [("j", " "), ("k", "v")], "") == "v"
    ensures Render("{{{{ j }}k }}", [("k", "v"), ("j", " ")], "") == "{{ k }}"
  {
    PairEnumeration("j", " ", "k", "v");
    NestedBracesJFirst();
    NestedBracesKFirst();
  }

  /** Replacing one of two adjacent placeholders with brace-free keys. */
  lemma ReplaceTwoTokens(a: string, b: string, value: string)
    requires BraceFree(a) && BraceFree(b)
    ensures Replace(Placeholder(a) + Placeholder(b), Placeholder(a), value)
         == value + (if a == b then value else Placeholder(b))
  {
    var ps := [Token(a), Token(b)];
    FlattenPair(Token(a), Token(b));
    ReplaceFlatten(ps, a, value);
    var rs := [Text(value), if a == b then Text(value) else Token(b)];
    assert Resolve(ps, map[a := value]) == rs;
    FlattenPair(rs[0], rs[1]);
  }

  /** Replacing the placeholder in front of a brace-free text. */
  lemma ReplaceTokenText(key: string, text: string, value: string)
    requires BraceFree(key) && BraceFree(text)
    ensures Replace(Placeholder(key) + text, Placeholder(key), value) == value + text
  {
    var ps := [Token(key), Text(text)];
    FlattenPair(Token(key), Text(text));
    ReplaceFlatten(ps, key, value);
    assert Resolve(ps, map[key := value]) == [Text(value), Text(text)];
    FlattenPair(Text(value), Text(text));
  }

  /** Replacing the second of two adjacent placeholders with distinct brace-free keys. */
  lemma ReplaceSecondToken(a: string, b: string, value: string)
    requires BraceFree(a) && BraceFree(b) && a != b
    ensures Replace(Placeholder(a) + Placeholder(b), Placeholder(b), value) == Placeholder(a) + value
  {
    var ps := [Token(a), Token(b)];
    FlattenPair(Token(a), Token(b));
    ReplaceFlatten(ps, b, value);
    assert Resolve(ps, map[b := value]) == [Token(a), Text(value)];
    FlattenPair(Token(a), Text(value));
  }

  /** A value holding `{{ b }}`, substituted before `b`: its placeholder is substituted as well. */
  lemma BracedValueFirst(a: string, b: string, value: string)
    requires BraceFree(a) && BraceFree(b) && BraceFree(value) && a != b
    ensures Render(Placeholder(a) + Placeholder(b), [(a, Placeholder(b)), (b, value)], "") == value + value
  {
    var pa, pb := Placeholder(a), Placeholder(b);
    // `{{ b }}{{ b }}`, then the value twice.
    ReplaceTwoTokens(a, b, pb);
    ReplaceTwoTokens(b, b, value);
    SubstitutePair(pa + pb, (a, pb), (b, value));
    FlattenPair(Text(value), Text(value));
    ReplaceFlatten([Text(value), Text(value)], ContentKey, "");
    assert Resolve([Text(value), Text(value)], map[ContentKey := ""]) == [Text(value), Text(value)];
  }

  /** The same value substituted after `b`: its placeholder stays in the page. */
  lemma BracedValueLast(a: string, b: string, value: string)
    requires BraceFree(a) && BraceFree(b) && BraceFree(value) && a != b && b != ContentKey
    ensures Render(Placeholder(a) + Placeholder(b), [(b, value), (a, Placeholder(b))], "") == Placeholder(b) + value
  {
    var pa, pb := Placeholder(a), Placeholder(b);
    // `{{ a }}` and the value, then `{{ b }}` and the value.
    ReplaceSecondToken(a, b, value);
    ReplaceTokenText(a, value, pb);
    SubstitutePair(pa + pb, (b, value), (a, pb));
    FlattenPair(Token(b), Text(value));
    ReplaceFlatten([Token(b), Text(value)], ContentKey, "");
    assert Resolve([Token(b), Text(value)], map[ContentKey := ""]) == [Token(b), Text(value)];
  }

  /** The same with the keys `a` and `b` and the value `x`. */
  lemma OrderMattersForBracedValues()
    ensures IsEnumeration([("a", "{{ b }}"), ("b", "x")], map["a" := "{{ b }}", "b" := "x"])
    ensures IsEnumeration([("b", "x"), ("a", "{{ b }}")], map["a" := "{{ b }}", "b" := "x"])
    ensures Render("{{ a }}{{ b }}", [("a", "{{ b }}"), ("b", "x")], "") == "xx"
    ensures Render("{{ a }}{{ b }}", [("b", "x"), ("a", "{{ b }}")], "") == "{{ b }}x"
  {
    PairEnumeration("a", "{{ b }}", "b", "x");
    BracedValueLiterals();
    BracedValueFirst("a", "b", "x");
    BracedValueLast("a", "b", "x");
  }

  /** The literal facts that `OrderMattersForBracedValues` uses. */
  lemma BracedValueLiterals()
    ensures Placeholder("a") + Placeholder("b") == "{{ a }}{{ b }}" && Placeholder("b") == "{{ b }}"
    ensures BraceFree("a") && BraceFree("b") && BraceFree("x") && "b" != ContentKey
  {
  }
}
