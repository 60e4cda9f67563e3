// The engine object of index.ts: its two configuration fields, set once by
// the constructor, and the methods that read them. The document tree is not
// modelled: the expansion of custom tags by the tree is a parameter of
// ReleaseTheKraken, and what _makeColumn learns from the tree is a Context.
module Engine {
  import opened TextUtil
  import opened Attributes
  import opened RawShield
  import opened RawReinject
  import opened VoidTags
  import opened Columns
  import opened Components

  /** The options a caller may pass to the constructor. A missing column
      count is None; the cheerio options are not modelled. */
  datatype Options = Options(columnCount: Option<nat>, components: map<String, String>)

  /** `options.columnCount || 12`: an absent or zero count means twelve. */
  function ColumnCountOf(option: Option<nat>): (r: nat)
    ensures r >= 1
    ensures option.Some? && option.value != 0 ==> r == option.value
    ensures option.None? || option.value == 0 ==> r == 12
  {
    if option.Some? && option.value != 0 then option.value else 12
  }

  /** Object.assign over the default tag names: the caller's names win,
      every default the caller does not name stays. */
  function MergeComponents(overrides: map<String, String>): (r: map<String, String>)
    ensures r.Keys == DefaultComponents.Keys + overrides.Keys
    ensures forall k :: k in overrides ==> r[k] == overrides[k]
    ensures forall k :: k in DefaultComponents && k !in overrides ==> r[k] == DefaultComponents[k]
  {
    DefaultComponents + overrides
  }

  /** The whole string pipeline of releaseTheKraken, with the tree step given. */
  function Kraken(tree: String -> String, xml: String): String
  {
    ReinjectLoop(ConvertTags(tree(Normalize(Shielded(xml, 0)))), Inners(xml), 0)
  }

  class Inky {
    const columnCount: nat
    const components: map<String, String>

    /** The fields are set once; every switch case gets a tag and the grid
        at least one column. */
    constructor(options: Options)
      ensures columnCount == ColumnCountOf(options.columnCount)
      ensures components == MergeComponents(options.components)
      ensures columnCount >= 1 && forall i :: 0 <= i < |CaseKeys| ==> CaseKeys[i] in components
    {
      columnCount := ColumnCountOf(options.columnCount);
      components := MergeComponents(options.components);
      DefaultsInOrder();
    }

    /** _makeColumn: the class list built by pushes, the carried attributes,
        the expander cell, and the cell markup around the inner HTML. */
    method MakeColumn(attrs: seq<Attribute>, ctx: Context, inner: String) returns (output: String)
      ensures output == ColumnHtml(columnCount, attrs, ctx, inner)
    {
      var classes := MakeColumnClasses(columnCount, attrs, ctx);
      var carried := GetAttrs(attrs);
      var expander := "";
      if HasExpander(columnCount, attrs, ctx) {
        expander := "\n<th class=\"expander\"></th>";
      }
      output := ColumnOpen(Join(classes, ' '), carried) + inner + ColumnClose(expander);
    }

    /** _componentFactory: the case of the switch picked by the element's
        name, with columns handed to MakeColumn. */
    method ComponentFactory(e: Element, ctx: Context, outer: String) returns (output: String)
      ensures output == Factory(components, columnCount, e, ctx, outer)
    {
      var carried := GetAttrs(e.attrs);
      var kind := Dispatch(components, e.name);
      if kind == ColumnsKind {
        output := MakeColumn(e.attrs, ctx, e.inner);
        ColumnFrame(e.attrs, e.inner, columnCount, ctx);
      } else if Framed(kind) {
        output := FramedMarkup(kind, e.attrs, carried, columnCount, ctx, e.inner);
      } else {
        output := Unframed(kind, e.attrs, carried, e.inner, outer);
      }
    }

    /** releaseTheKraken: shield the raw blocks, normalise the void tags, let
        the tree expand the custom tags, canonicalise self-closing tags and
        put the raw blocks back. */
    method ReleaseTheKraken(tree: String -> String, xml: String) returns (output: String)
      ensures output == Kraken(tree, xml)
    {
      var text, raws := ExtractRaws(xml);
      text := Normalize(text);
      text := tree(text);
      text := ConvertSelfClosingTags(text);
      output := ReInjectRaws(text, raws);
    }
  }

  /** A new engine given no tag names answers to the thirteen default tags,
      each selecting its own case. */
  lemma DefaultEngineDispatch(i: nat)
    requires i < |CaseKeys|
    ensures Dispatch(MergeComponents(map[]), DefaultTags[i]) == CaseKinds[i]
  {
    assert MergeComponents(map[]) == DefaultComponents;
    DefaultsInOrder();
    DefaultsDistinct();
    DispatchOwnTag(DefaultComponents, i);
  }

  /** Raw content comes through the pipeline unchanged: when the text
      outside the raw blocks has no void start tag and no self-closing tag,
      and the tree leaves it alone, the output is the input with only the
      raw markers removed. */
  lemma KrakenPlainTags(tree: String -> String, xml: String)
    requires '#' !in xml
    requires NoVoidTag(Shielded(xml, 0)) && NoSelfClosing(Shielded(xml, 0))
    requires tree(Shielded(xml, 0)) == Shielded(xml, 0)
    ensures Kraken(tree, xml) == Stripped(xml)
  {
    var s := Shielded(xml, 0);
    NormalizePlain(s);
    ConvertPlain(s);
    RawRoundTrip(xml);
  }

  /** A `<` followed by `/` or by `h` and a digit starts no void name. */
  lemma NotVoidAfter(x: String)
    requires |x| >= 2 && (x[0] == '/' || (x[0] == 'h' && IsAsciiDigit(x[1])))
    ensures forall e :: e in VoidNames ==> !StartsIgnoringCase(x, e)
  {
    forall e | e in VoidNames ensures !StartsIgnoringCase(x, e) {
      VoidNamesLong(e);
      if StartsIgnoringCase(x, e) {
        assert Lower(x[0]) == Lower(e[0]) && Lower(x[1]) == Lower(e[1]);
        VoidNamesLower(e, 0);
        VoidNamesLower(e, 1);
        assert false;
      }
    }
  }

  /** A placeholder holds no tag. */
  lemma PlaceholderPlain(i: nat)
    ensures NoVoidTag(Placeholder(i)) && NoSelfClosing(Placeholder(i))
    ensures Placeholder(i) != [] && Placeholder(i)[|Placeholder(i)| - 1] == '#'
  {
    var p := Placeholder(i);
    assert '<' !in p && '>' !in p;
  }

  /** The heading tags of the example start no void name. */
  lemma HeadingPlain(t: String)
    requires t == "<h1>" || t == "<h2>" || t == "</h1>" || t == "</h2>"
    ensures NoVoidTag(t) && NoSelfClosing(t) && t[|t| - 1] == '>'
  {
    NotVoidAfter(t[1..]);
    assert t[0 + 1..] == t[1..];
  }

  /** The text the second raw-block example leaves after shielding, with
      headings around its two placeholders, meets the hypothesis of
      KrakenPlainTags. */
  lemma HeadingsPlain()
    ensures var s := "<h1>" + Placeholder(0) + "</h1><h2>" + Placeholder(1) + "</h2>";
      NoVoidTag(s) && NoSelfClosing(s)
  {
    var p0, p1 := Placeholder(0), Placeholder(1);
    HeadingPlain("<h1>"); HeadingPlain("</h1>"); HeadingPlain("<h2>"); HeadingPlain("</h2>");
    PlaceholderPlain(0); PlaceholderPlain(1);
    var t4 := p1 + "</h2>";
    NoVoidTagAppend(p1, "</h2>"); NoSelfClosingAppend(p1, "</h2>");
    var t3 := "<h2>" + t4;
    NoVoidTagAppend("<h2>", t4); NoSelfClosingAppend("<h2>", t4);
    var t2 := "</h1>" + t3;
    NoVoidTagAppend("</h1>", t3); NoSelfClosingAppend("</h1>", t3);
    var t1 := p0 + t2;
    NoVoidTagAppend(p0, t2); NoSelfClosingAppend(p0, t2);
    NoVoidTagAppend("<h1>", t1); NoSelfClosingAppend("<h1>", t1);
    assert "<h1>" + p0 + "</h1><h2>" + p1 + "</h2>" == "<h1>" + t1;
  }
}
