// The column layout of _makeColumn (index.ts): the small and large widths of
// a <columns> element, its class list, the first/last flags and the expander
// cell. What the method learns from the document tree (sibling, preceding and
// following columns, a nested row) is an explicit input, a Context.
module Columns {
  import opened TextUtil
  import opened Attributes

  /** The facts _makeColumn reads from the document around the column. */
  datatype Context = Context(
    siblings: nat,    // other <columns> elements among the column's siblings
    before: nat,      // preceding columns, unconverted tags and converted th.columns cells
    after: nat,       // following columns, counted the same way
    nestedRow: bool)  // a .row or <row> somewhere inside the column

  /** A width as JavaScript holds it: the attribute's own text, or a number
      the method computed. */
  datatype Size = Given(text: String) | Computed(n: nat)

  /** The text format("%s", size) renders. */
  function SizeText(z: Size): String
  {
    match z
    case Given(t) => t
    case Computed(n) => NatToString(n)
  }

  predicate AllDigits(s: String)
  {
    forall i :: 0 <= i < |s| ==> IsAsciiDigit(s[i])
  }

  /** The loose comparison `size == columnCount`: an attribute text compares
      equal when it is the decimal numeral of the count. */
  predicate SizeIs(z: Size, n: nat)
  {
    match z
    case Computed(m) => m == n
    case Given(t) => t != [] && AllDigits(t) && DigitsValue(t) == n
  }

  /** `col.attr("small") || this._columnCount` */
  function SmallSize(columnCount: nat, attrs: seq<Attribute>): Size
  {
    var small := Lookup(attrs, "small");
    if Truthy(small) then Given(small.value) else Computed(columnCount)
  }

  /** `col.attr("large") || col.attr("small") || Math.floor(columnCount / colCount)`,
      with colCount the sibling columns plus this one. */
  function LargeSize(columnCount: nat, attrs: seq<Attribute>, ctx: Context): Size
  {
    var large, small := Lookup(attrs, "large"), Lookup(attrs, "small");
    if Truthy(large) then Given(large.value)
    else if Truthy(small) then Given(small.value)
    else Computed(columnCount / (ctx.siblings + 1))
  }

  /** The classes the layout adds, in the order they are pushed. */
  function LayoutClasses(columnCount: nat, attrs: seq<Attribute>, ctx: Context): seq<String>
  {
    ["small-" + SizeText(SmallSize(columnCount, attrs)),
     "large-" + SizeText(LargeSize(columnCount, attrs, ctx)),
     "columns"]
    + (if ctx.before == 0 then ["first"] else [])
    + (if ctx.after == 0 then ["last"] else [])
  }

  function ColumnClasses(columnCount: nat, attrs: seq<Attribute>, ctx: Context): seq<String>
  {
    CallerClasses(attrs) + LayoutClasses(columnCount, attrs, ctx)
  }

  /** The classes array of _makeColumn, built by successive pushes. */
  method MakeColumnClasses(columnCount: nat, attrs: seq<Attribute>, ctx: Context)
    returns (classes: seq<String>)
    ensures classes == ColumnClasses(columnCount, attrs, ctx)
  {
    classes := [];
    var classAttr := Lookup(attrs, "class");
    if Truthy(classAttr) {
      classes := classes + Split(classAttr.value, ' ');
    }
    assert classes == CallerClasses(attrs);
    var smallSize := SmallSize(columnCount, attrs);
    var largeSize := LargeSize(columnCount, attrs, ctx);
    classes := classes + ["small-" + SizeText(smallSize)];
    classes := classes + ["large-" + SizeText(largeSize)];
    classes := classes + ["columns"];
    if ctx.before == 0 {
      classes := classes + ["first"];
    }
    if ctx.after == 0 {
      classes := classes + ["last"];
    }
    PushesAssociate(CallerClasses(attrs), "small-" + SizeText(smallSize), "large-" + SizeText(largeSize),
      ctx.before == 0, ctx.after == 0);
  }

  /** The successive pushes of MakeColumnClasses, regrouped. */
  lemma PushesAssociate(caller: seq<String>, small: String, large: String, first: bool, last: bool)
    ensures var pushed := caller + [small] + [large] + ["columns"];
      var withFirst := if first then pushed + ["first"] else pushed;
      (if last then withFirst + ["last"] else withFirst)
      == caller + ([small, large, "columns"] + (if first then ["first"] else []) + (if last then ["last"] else []))
  {
  }

  /** The expander condition: full width, no nested row, and no-expander
      absent or exactly "false". */
  predicate HasExpander(columnCount: nat, attrs: seq<Attribute>, ctx: Context)
  {
    var noExpander := Lookup(attrs, "no-expander");
    && SizeIs(LargeSize(columnCount, attrs, ctx), columnCount)
    && !ctx.nestedRow
    && (noExpander.None? || noExpander.value == "false")
  }

  function Expander(columnCount: nat, attrs: seq<Attribute>, ctx: Context): String
  {
    if HasExpander(columnCount, attrs, ctx) then "\n<th class=\"expander\"></th>" else ""
  }

  /** The markup of a converted column; `inner` is the column's content. */
  function ColumnHtml(columnCount: nat, attrs: seq<Attribute>, ctx: Context, inner: String): String
  {
    ColumnOpen(Join(ColumnClasses(columnCount, attrs, ctx), ' '), Render(Carried(attrs)))
    + inner
    + ColumnClose(Expander(columnCount, attrs, ctx))
  }

  function ColumnOpen(classText: String, carried: String): String
  {
    "<th class=\"" + classText + "\" " + carried + "><table><tbody><tr><th>"
  }

  function ColumnClose(expander: String): String
  {
    "</th>" + expander + "</tr></tbody></table></th>"
  }

  // ---------------------------------------------------------------------
  // Widths

  /** Without size attributes, the large width is the even share of the grid,
      rounded down: Math.floor agrees with Dafny's division because the
      divisor is positive. */
  lemma LargeEvenShare(columnCount: nat, attrs: seq<Attribute>, ctx: Context)
    requires !Truthy(Lookup(attrs, "large")) && !Truthy(Lookup(attrs, "small"))
    ensures LargeSize(columnCount, attrs, ctx).Computed?
    ensures var n, k := LargeSize(columnCount, attrs, ctx).n, ctx.siblings + 1;
      n * k <= columnCount < (n + 1) * k
  {
    var n, k := columnCount / (ctx.siblings + 1), ctx.siblings + 1;
    assert columnCount == n * k + columnCount % k;
  }

  /** Without a large attribute, the small and large classes carry the same
      width: the small attribute when it is given, the whole grid when the
      column has no siblings. */
  lemma SameWidths(columnCount: nat, attrs: seq<Attribute>, ctx: Context)
    requires !Truthy(Lookup(attrs, "large"))
    requires Truthy(Lookup(attrs, "small")) || ctx.siblings == 0
    ensures var cs, c := ColumnClasses(columnCount, attrs, ctx), |CallerClasses(attrs)|;
      var small := Lookup(attrs, "small");
      var w := if Truthy(small) then small.value else NatToString(columnCount);
      |cs| >= c + 2 && cs[c] == "small-" + w && cs[c + 1] == "large-" + w
  {
    ClassOrder(columnCount, attrs, ctx);
    LargeFromSmall(columnCount, attrs, ctx);
  }

  lemma LargeFromSmall(columnCount: nat, attrs: seq<Attribute>, ctx: Context)
    requires !Truthy(Lookup(attrs, "large"))
    requires Truthy(Lookup(attrs, "small")) || ctx.siblings == 0
    ensures LargeSize(columnCount, attrs, ctx) == SmallSize(columnCount, attrs)
  {
    if !Truthy(Lookup(attrs, "small")) {
      var k := ctx.siblings + 1;
      assert k == 1;
      assert columnCount / k == columnCount;
    }
  }

  /** A size attribute written as the numeral of the column count compares
      equal to it. */
  lemma NumeralIsCount(n: nat)
    ensures SizeIs(Given(NatToString(n)), n)
  {
    NatToStringValue(n);
  }

  /** With no size attributes the column spans the grid exactly when it has
      no sibling columns. */
  lemma {:induction false} FullWidthIffAlone(columnCount: nat, attrs: seq<Attribute>, ctx: Context)
    requires columnCount >= 1
    requires !Truthy(Lookup(attrs, "large")) && !Truthy(Lookup(attrs, "small"))
    ensures SizeIs(LargeSize(columnCount, attrs, ctx), columnCount) <==> ctx.siblings == 0
  {
    var k := ctx.siblings + 1;
    if k >= 2 {
      LargeEvenShare(columnCount, attrs, ctx);
      ShareBelowWhole(columnCount / k, k, columnCount);
    }
  }

  lemma ShareBelowWhole(n: nat, k: nat, c: nat)
    requires k >= 2 && c >= 1 && n * k <= c
    ensures n < c
  {
    assert n * k == n * 2 + n * (k - 2);
  }

  /** The expander cell is added exactly when the column spans the grid,
      holds no row, and no-expander does not switch it off. */
  lemma ExpanderAlone(columnCount: nat, attrs: seq<Attribute>, ctx: Context)
    requires columnCount >= 1
    requires !Truthy(Lookup(attrs, "large")) && !Truthy(Lookup(attrs, "small"))
    ensures HasExpander(columnCount, attrs, ctx) <==>
      ctx.siblings == 0 && !ctx.nestedRow
      && (Lookup(attrs, "no-expander").None? || Lookup(attrs, "no-expander").value == "false")
  {
    FullWidthIffAlone(columnCount, attrs, ctx);
  }

  // ---------------------------------------------------------------------
  // The class list

  /** The caller's classes come first, then small-S, large-L and columns,
      and after those only `first` and `last`. */
  lemma ClassOrder(columnCount: nat, attrs: seq<Attribute>, ctx: Context)
    ensures var cs, c := ColumnClasses(columnCount, attrs, ctx), |CallerClasses(attrs)|;
      && |cs| >= c + 3
      && cs[..c] == CallerClasses(attrs)
      && cs[c] == "small-" + SizeText(SmallSize(columnCount, attrs))
      && cs[c + 1] == "large-" + SizeText(LargeSize(columnCount, attrs, ctx))
      && cs[c + 2] == "columns"
      && cs[c + 3..] == (if ctx.before == 0 then ["first"] else []) + (if ctx.after == 0 then ["last"] else [])
  {
    ListParts(CallerClasses(attrs),
      "small-" + SizeText(SmallSize(columnCount, attrs)),
      "large-" + SizeText(LargeSize(columnCount, attrs, ctx)),
      if ctx.before == 0 then ["first"] else [],
      if ctx.after == 0 then ["last"] else []);
  }

  lemma ListParts(caller: seq<String>, small: String, large: String, first: seq<String>, last: seq<String>)
    ensures var cs, c := caller + ([small, large, "columns"] + first + last), |caller|;
      && |cs| >= c + 3
      && cs[..c] == caller && cs[c] == small && cs[c + 1] == large && cs[c + 2] == "columns"
      && cs[c + 3..] == first + last
  {
    var cs, c := caller + ([small, large, "columns"] + first + last), |caller|;
    assert cs[..c] == caller;
    assert cs[c + 3..] == first + last;
  }

  /** `last` ends the list exactly when no column follows. */
  lemma LastFlag(columnCount: nat, attrs: seq<Attribute>, ctx: Context)
    ensures var cs := ColumnClasses(columnCount, attrs, ctx);
      cs != [] && (cs[|cs| - 1] == "last" <==> ctx.after == 0)
  {
    var small := "small-" + SizeText(SmallSize(columnCount, attrs));
    var large := "large-" + SizeText(LargeSize(columnCount, attrs, ctx));
    assert |large| >= 6;
  }

  /** `first` is in the list exactly when no column precedes, unless the
      caller already gave the class. */
  lemma FirstFlag(columnCount: nat, attrs: seq<Attribute>, ctx: Context)
    ensures "first" in ColumnClasses(columnCount, attrs, ctx) <==>
      ctx.before == 0 || "first" in CallerClasses(attrs)
  {
    var small := "small-" + SizeText(SmallSize(columnCount, attrs));
    var large := "large-" + SizeText(LargeSize(columnCount, attrs, ctx));
    assert |small| >= 6 && |large| >= 6;
    assert small != "first" && large != "first";
  }

  /** The class attribute text: the caller's class verbatim, then the layout
      classes, one space apart. */
  lemma ClassText(columnCount: nat, attrs: seq<Attribute>, ctx: Context)
    ensures var cls := Lookup(attrs, "class");
      Join(ColumnClasses(columnCount, attrs, ctx), ' ')
      == (if Truthy(cls) then cls.value + " " else "") + Join(LayoutClasses(columnCount, attrs, ctx), ' ')
  {
    var cls := Lookup(attrs, "class");
    if Truthy(cls) {
      JoinAppend(Split(cls.value, ' '), LayoutClasses(columnCount, attrs, ctx), ' ');
      JoinSplit(cls.value, ' ');
    } else {
      assert ColumnClasses(columnCount, attrs, ctx) == LayoutClasses(columnCount, attrs, ctx);
    }
  }

  /** A lone column without attributes in a twelve-column grid: the
      introduction example of the Inky documentation. */
  lemma LoneColumn()
    ensures ColumnClasses(12, [], Context(0, 0, 0, false)) == ["small-12", "large-12", "columns", "first", "last"]
    ensures Join(ColumnClasses(12, [], Context(0, 0, 0, false)), ' ')
         == "small-12" + " " + "large-12" + " " + "columns" + " " + "first" + " " + "last"
    ensures HasExpander(12, [], Context(0, 0, 0, false))
  {
    LoneColumnSizes();
    LoneColumnText();
  }

  lemma LoneColumnText()
    ensures Join(["small-12", "large-12", "columns", "first", "last"], ' ')
         == "small-12" + " " + "large-12" + " " + "columns" + " " + "first" + " " + "last"
  {
    JoinCons("small-12", ["large-12", "columns", "first", "last"], ' ');
    JoinCons("large-12", ["columns", "first", "last"], ' ');
    JoinCons("columns", ["first", "last"], ' ');
    JoinCons("first", ["last"], ' ');
  }

  lemma LoneColumnSizes()
    ensures LayoutClasses(12, [], Context(0, 0, 0, false)) == ["small-12", "large-12", "columns", "first", "last"]
    ensures CallerClasses([]) == []
    ensures HasExpander(12, [], Context(0, 0, 0, false))
  {
    assert NatToString(12) == "12";
    assert SmallSize(12, []) == Computed(12);
    assert LargeSize(12, [], Context(0, 0, 0, false)) == Computed(12);
    assert "small-" + "12" == "small-12";
    assert "large-" + "12" == "large-12";
  }
}
