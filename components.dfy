// The component expanders of _componentFactory (index.ts): each custom tag
// becomes table markup built from its carried attributes (getAttrs), its
// class list and its already expanded inner HTML. The spacer goes through
// two rounds of util.format, modelled by Format below.
module Components {
  import opened TextUtil
  import opened Attributes
  import opened Columns

  // ---------------------------------------------------------------------
  // Class lists

  /** `[base].concat(element.attr("class").split(" "))` when the class
      attribute is set, `[base]` otherwise. */
  function ClassList(base: seq<String>, attrs: seq<Attribute>): seq<String>
  {
    base + CallerClasses(attrs)
  }

  /** The joined class list is the base classes, then the caller's class
      attribute verbatim after one space. */
  lemma ClassListText(base: seq<String>, attrs: seq<Attribute>)
    requires base != []
    ensures var cls := Lookup(attrs, "class");
      Join(ClassList(base, attrs), ' ')
      == Join(base, ' ') + (if Truthy(cls) then " " + cls.value else "")
  {
    var cls := Lookup(attrs, "class");
    if Truthy(cls) {
      JoinAppend(base, Split(cls.value, ' '), ' ');
      JoinSplit(cls.value, ' ');
    } else {
      assert ClassList(base, attrs) == base;
    }
  }

  /** cheerio's hasClass: `name` occurs in the class attribute with
      whitespace or the ends of the attribute on both sides. */
  predicate HasClass(attrs: seq<Attribute>, name: String)
  {
    var cls := Lookup(attrs, "class");
    && Truthy(cls) && name != []
    && exists i: nat | i + |name| <= |cls.value| ::
         && HasAt(cls.value, i, name)
         && (i == 0 || IsSpace(cls.value[i - 1]))
         && (i + |name| == |cls.value| || IsSpace(cls.value[i + |name|]))
  }

  /** String(element.attr(name)): a missing attribute prints as "undefined". */
  function AttrText(attrs: seq<Attribute>, name: String): String
  {
    var v := Lookup(attrs, name);
    if v.Some? then v.value else "undefined"
  }

  // ---------------------------------------------------------------------
  // util.format

  datatype Filled = Filled(text: String, used: nat)

  /** The placeholder pass of util.format: `%s` takes the next argument,
      `%%` is a percent sign, any other `%x` stays as it is, and `%s` with
      no argument left stays too. */
  function Fill(fmt: String, args: seq<String>): (r: Filled)
    ensures r.used <= |args|
    decreases |fmt|
  {
    if |fmt| < 2 then Filled(fmt, 0)
    else if fmt[0] != '%' then
      var f := Fill(fmt[1..], args); Filled([fmt[0]] + f.text, f.used)
    else if fmt[1] == 's' && args != [] then
      var f := Fill(fmt[2..], args[1..]); Filled(args[0] + f.text, f.used + 1)
    else if fmt[1] == '%' then
      var f := Fill(fmt[2..], args); Filled("%" + f.text, f.used)
    else
      var f := Fill(fmt[2..], args); Filled(fmt[..2] + f.text, f.used)
  }

  /** Arguments left over after the placeholders, each after a space. */
  function Trailing(args: seq<String>): String
  {
    if args == [] then [] else " " + args[0] + Trailing(args[1..])
  }

  /** util.format(fmt, ...args) for string arguments. */
  function Format(fmt: String, args: seq<String>): String
  {
    if args == [] then fmt
    else
      var f := Fill(fmt, args);
      f.text + Trailing(args[f.used..])
  }

  /** Text without a percent sign passes through the placeholder pass. */
  lemma {:induction false} FillPlain(a: String, b: String, args: seq<String>)
    requires '%' !in a
    ensures Fill(a + b, args) == Filled(a + Fill(b, args).text, Fill(b, args).used)
    decreases |a|
  {
    if a != [] {
      assert '%' !in a[1..] by {
        assert forall c :: c in a[1..] ==> c in a;
      }
      FillPlain(a[1..], b, args);
      ConsSplit(a, b, Fill(b, args).text);
      FillStep(a[0], a[1..] + b, args);
    } else {
      assert a + b == b;
      assert a + Fill(b, args).text == Fill(b, args).text;
    }
  }

  lemma ConsSplit(a: String, b: String, t: String)
    requires a != []
    ensures a + b == [a[0]] + (a[1..] + b) && [a[0]] + (a[1..] + t) == a + t
  {
  }

  /** A character other than `%` is copied. */
  lemma FillStep(c: char, t: String, args: seq<String>)
    requires c != '%'
    ensures Fill([c] + t, args) == Filled([c] + Fill(t, args).text, Fill(t, args).used)
  {
    assert ([c] + t)[1..] == t;
    if t == [] {
      assert [c] + t == [c];
      assert [c] + [] == [c];
    }
  }

  /** A `%s` with an argument left takes that argument. */
  lemma FillTakes(b: String, args: seq<String>)
    requires args != []
    ensures Fill("%s" + b, args) == Filled(args[0] + Fill(b, args[1..]).text, Fill(b, args[1..]).used + 1)
  {
    assert ("%s" + b)[2..] == b;
  }

  /** A `%s` with no argument left stays in the text. */
  lemma FillKeeps(b: String)
    ensures Fill("%s" + b, []) == Filled("%s" + Fill(b, []).text, Fill(b, []).used)
  {
    assert ("%s" + b)[2..] == b;
    assert ("%s" + b)[..2] == "%s";
  }

  lemma FillNothing(a: String, args: seq<String>)
    requires '%' !in a
    ensures Fill(a, args) == Filled(a, 0)
  {
    FillPlain(a, [], args);
    assert a + [] == a;
  }

  /** `pieces[0] + fills[0] + pieces[1] + … + fills[k-1] + pieces[k]`. */
  function Interleave(pieces: seq<String>, fills: seq<String>): String
    requires |pieces| == |fills| + 1
    decreases |fills|
  {
    if fills == [] then pieces[0]
    else pieces[0] + fills[0] + Interleave(pieces[1..], fills[1..])
  }

  /** `k` placeholders `%s`. */
  function Holes(k: nat): seq<String>
  {
    seq(k, _ => "%s")
  }

  /** A format string whose only `%` signs are k placeholders `%s`, given
      at least k arguments: the placeholders take the first k arguments in
      order, and the rest are appended, each after a space. */
  lemma {:induction false} FormatClosed(pieces: seq<String>, args: seq<String>)
    requires |pieces| >= 1 && |args| >= |pieces| - 1
    requires forall i :: 0 <= i < |pieces| ==> '%' !in pieces[i]
    ensures Fill(Interleave(pieces, Holes(|pieces| - 1)), args)
         == Filled(Interleave(pieces, args[..|pieces| - 1]), |pieces| - 1)
    ensures Format(Interleave(pieces, Holes(|pieces| - 1)), args)
         == Interleave(pieces, args[..|pieces| - 1]) + Trailing(args[|pieces| - 1..])
    decreases |pieces|
  {
    var k := |pieces| - 1;
    if k == 0 {
      FillNothing(pieces[0], args);
    } else {
      var rest := Interleave(pieces[1..], Holes(k - 1));
      assert Holes(k)[1..] == Holes(k - 1);
      assert Interleave(pieces, Holes(k)) == pieces[0] + ("%s" + rest);
      FormatClosed(pieces[1..], args[1..]);
      assert args[1..][..k - 1] == args[..k][1..];
      assert args[1..][k - 1..] == args[k..];
      FillTakes(rest, args);
      FillPlain(pieces[0], "%s" + rest, args);
    }
  }

  // ---------------------------------------------------------------------
  // Templates. Every rule but h-line, inky, center, spacer and the default
  // places the inner HTML at one spot of its markup, between an opening and
  // a closing part.

  /** The component kinds, one per case of _componentFactory's switch. */
  datatype Kind =
    | HLineKind | ColumnsKind | RowKind | ButtonKind | ContainerKind | InkyKind
    | BlockGridKind | MenuKind | MenuItemKind | CenterKind | CalloutKind
    | SpacerKind | WrapperKind | OtherKind

  /** Kinds whose markup is an opening part, the inner HTML, a closing part. */
  predicate Framed(kind: Kind)
  {
    kind in {ColumnsKind, RowKind, ButtonKind, ContainerKind, BlockGridKind,
             MenuKind, MenuItemKind, CalloutKind, WrapperKind}
  }

  function Wrap(open: String, inner: String, close: String): String
  {
    open + inner + close
  }

  /** The class attribute text of a rule with base classes `base`. */
  function Classes(base: seq<String>, attrs: seq<Attribute>): String
  {
    Join(ClassList(base, attrs), ' ')
  }

  /** The ` target=...` fragment of buttons and menu items (unquoted). */
  function Target(attrs: seq<Attribute>): String
  {
    var t := Lookup(attrs, "target");
    if Truthy(t) then " target=" + t.value else ""
  }

  predicate Expanded(attrs: seq<Attribute>)
  {
    HasClass(attrs, "expand") || HasClass(attrs, "expanded")
  }

  /** The anchor a button with an href opens around its content. */
  function LinkOpen(attrs: seq<Attribute>, carried: String): String
  {
    var href := Lookup(attrs, "href");
    if Truthy(href) then "<a " + carried + " href=\"" + href.value + "\"" + Target(attrs) + ">" else ""
  }

  function LinkClose(attrs: seq<Attribute>): String
  {
    if Truthy(Lookup(attrs, "href")) then "</a>" else ""
  }

  /** The anchor a button with an href puts around its content. */
  function ButtonLink(attrs: seq<Attribute>, carried: String, inner: String): String
  {
    if Truthy(Lookup(attrs, "href")) then Wrap(LinkOpen(attrs, carried), inner, LinkClose(attrs))
    else inner
  }

  function CentreOpen(attrs: seq<Attribute>): String
  {
    if Expanded(attrs) then "<center>" else ""
  }

  function CentreClose(attrs: seq<Attribute>): String
  {
    if Expanded(attrs) then "</center>" else ""
  }

  /** The centring an expanded button puts around the link. */
  function ButtonCentre(attrs: seq<Attribute>, link: String): String
  {
    if Expanded(attrs) then Wrap(CentreOpen(attrs), link, CentreClose(attrs)) else link
  }

  /** The two tables of a button, up to the cell that holds the content. */
  function ButtonTableOpen(attrs: seq<Attribute>): String
  {
    "<table class=\"" + Classes(["button"], attrs) + "\"><tbody><tr><td><table><tbody><tr><td>"
  }

  /** The rest of the two tables, with the expander cell of an expanded button. */
  function ButtonTableClose(attrs: seq<Attribute>): String
  {
    var expander := if Expanded(attrs) then "\n<td class=\"expander\"></td>" else "";
    "</td></tr></tbody></table></td>" + expander + "</tr></tbody></table>"
  }

  /** <button>, the anchor and the centring nested as the source nests them. */
  function Button(attrs: seq<Attribute>, carried: String, inner: String): String
  {
    Wrap(ButtonTableOpen(attrs), ButtonCentre(attrs, ButtonLink(attrs, carried, inner)), ButtonTableClose(attrs))
  }

  /** The markup before the inner HTML. */
  function Open(kind: Kind, attrs: seq<Attribute>, carried: String, columnCount: nat, ctx: Context): String
    requires Framed(kind)
  {
    match kind
    case ColumnsKind => ColumnOpen(Join(ColumnClasses(columnCount, attrs, ctx), ' '), carried)
    case RowKind =>
      "<table " + carried + " class=\"" + Classes(["row"], attrs) + "\"><tbody><tr>"
    case ButtonKind => ButtonTableOpen(attrs) + CentreOpen(attrs) + LinkOpen(attrs, carried)
    case ContainerKind =>
      "<table " + carried + " align=\"center\" class=\"" + Classes(["container"], attrs) + "\"><tbody><tr><td>"
    case BlockGridKind =>
      "<table class=\"" + Classes(["block-grid", "up-" + AttrText(attrs, "up")], attrs) + "\"><tbody><tr>"
    case MenuKind =>
      "<table " + carried + " class=\"" + Classes(["menu"], attrs) + "\"><tbody><tr><td><table><tbody><tr>"
    case MenuItemKind =>
      "<th " + carried + " class=\"" + Classes(["menu-item"], attrs)
      + "\"><a href=\"" + AttrText(attrs, "href") + "\"" + Target(attrs) + ">"
    case CalloutKind =>
      "<table " + carried + " class=\"callout\"><tbody><tr><th class=\"" + Classes(["callout-inner"], attrs) + "\">"
    case WrapperKind =>
      "<table " + carried + " class=\"" + Classes(["wrapper"], attrs)
      + "\" align=\"center\"><tbody><tr><td class=\"wrapper-inner\">"
  }

  /** The markup after the inner HTML. */
  function Close(kind: Kind, attrs: seq<Attribute>, columnCount: nat, ctx: Context): String
    requires Framed(kind)
  {
    match kind
    case ColumnsKind => ColumnClose(Expander(columnCount, attrs, ctx))
    case RowKind => "</tr></tbody></table>"
    case ButtonKind => LinkClose(attrs) + CentreClose(attrs) + ButtonTableClose(attrs)
    case ContainerKind => "</td></tr></tbody></table>"
    case BlockGridKind => "</tr></tbody></table>"
    case MenuKind => "</tr></tbody></table></td></tr></tbody></table>"
    case MenuItemKind => "</a></th>"
    case CalloutKind => "</th><th class=\"expander\"></th></tr></tbody></table>"
    case WrapperKind => "</td></tr></tbody></table>"
  }

  /** <h-line>: no inner HTML. */
  function HLine(attrs: seq<Attribute>): String
  {
    "<table class=\"" + Classes(["h-line"], attrs) + "\"><tr><th>&nbsp;</th></tr></table>"
  }

  /** <inky>: a fixed image row, closing tags in the order the source has them. */
  const InkyLogo: String :=
    "<tr><td><img src=\"" + "https://raw.githubusercontent.com/arvida/emoji-cheat-sheet.com"
    + "/master/public/graphics/emojis/octopus.png" + "\" /></tr></td>"

  /** Any other tag: `outer`, the element's own serialisation, inside a table
      row. The source passes `element.html(element)`, the setter, whose result
      is a selection rather than this markup; the model gives the markup. */
  function Other(outer: String): String
  {
    "<tr><td>" + outer + "</td></tr>"
  }

  // ---------------------------------------------------------------------
  // <spacer>

  /** The spacer's cell after the class: `size` is spliced into the format
      string itself, not passed as an argument. */
  function SpacerCell(size: String): String
  {
    "\"><tbody><tr><td height=\"" + size + "\" style=\"font-size:" + size
    + "px;line-height:" + size + "px;\">&nbsp;" + "</td></tr></tbody></table>"
  }

  /** The spacer's format string for one table; `shown` is the visibility
      class after the placeholder for the class list. */
  function SpacerFormat(shown: String, size: String): String
  {
    "<table " + ("%s" + (" class=\"" + ("%s" + (shown + SpacerCell(size)))))
  }

  /** The size of a spacer without size-sm and size-lg: `size` or 16. */
  function SpacerSize(attrs: seq<Attribute>): String
  {
    var size := Lookup(attrs, "size");
    if Truthy(size) then size.value else "16"
  }

  /** The first round of format: each table with the carried attributes in. */
  function SpacerHtml(attrs: seq<Attribute>, carried: String): String
  {
    var sm, lg := Lookup(attrs, "size-sm"), Lookup(attrs, "size-lg");
    if Truthy(sm) || Truthy(lg) then
      (if Truthy(sm) then Format(SpacerFormat(" hide-for-large", sm.value), [carried]) else "")
      + (if Truthy(lg) then Format(SpacerFormat(" show-for-large", lg.value), [carried]) else "")
    else Format(SpacerFormat("", SpacerSize(attrs)), [carried])
  }

  /** <spacer>: the second round of format fills in the class list. */
  function Spacer(attrs: seq<Attribute>, carried: String, inner: String): String
  {
    var classes := Classes(["spacer"], attrs);
    var html := SpacerHtml(attrs, carried);
    if Truthy(Lookup(attrs, "size-sm")) && Truthy(Lookup(attrs, "size-lg")) then
      Format(html, [classes, classes, inner])
    else Format(html, [classes, inner])
  }

  /** One spacer table with everything substituted. */
  function SpacerTable(carried: String, classes: String, shown: String, size: String): String
  {
    "<table " + carried + " class=\"" + classes + shown + SpacerCell(size)
  }

  /** The first round's result for one table: carried attributes in, the
      class placeholder still open. */
  function SpacerHalf(carried: String, shown: String, size: String): String
  {
    "<table " + carried + (" class=\"" + ("%s" + (shown + SpacerCell(size))))
  }

  /** The markup the spacer is evidently after, substituted in one go. */
  function SpacerTables(attrs: seq<Attribute>, carried: String, classes: String): String
  {
    var sm, lg := Lookup(attrs, "size-sm"), Lookup(attrs, "size-lg");
    if Truthy(sm) || Truthy(lg) then
      (if Truthy(sm) then SpacerTable(carried, classes, " hide-for-large", sm.value) else "")
      + (if Truthy(lg) then SpacerTable(carried, classes, " show-for-large", lg.value) else "")
    else SpacerTable(carried, classes, "", SpacerSize(attrs))
  }

  /** No size attribute brings a percent sign into the format string. */
  predicate PlainSizes(attrs: seq<Attribute>)
  {
    forall name | name in ["size", "size-sm", "size-lg"] ::
      Lookup(attrs, name).Some? ==> '%' !in Lookup(attrs, name).value
  }

  lemma CellPlain(size: String)
    requires '%' !in size
    ensures '%' !in SpacerCell(size)
  {
    CellStartPlain();
    CellEndPlain();
  }

  lemma CellStartPlain()
    ensures '%' !in "\"><tbody><tr><td height=\""
    ensures '%' !in "\" style=\"font-size:"
  {
  }

  lemma CellEndPlain()
    ensures '%' !in "px;line-height:"
    ensures '%' !in "px;\">&nbsp;"
    ensures '%' !in "</td></tr></tbody></table>"
  {
  }

  /** The first round of format on one table. */
  lemma SpacerFirstRound(carried: String, shown: String, size: String)
    requires '%' !in shown && '%' !in size
    ensures Format(SpacerFormat(shown, size), [carried]) == SpacerHalf(carried, shown, size)
  {
    CellPlain(size);
    var tail := shown + SpacerCell(size);
    var x := " class=\"" + ("%s" + tail);
    ClassPlaceholderKept(tail);
    FillTakes(x, [carried]);
    FillPlain("<table ", "%s" + x, [carried]);
    assert Fill(SpacerFormat(shown, size), [carried]) == Filled("<table " + (carried + x), 1);
  }

  /** With the arguments used up, the class placeholder stays open. */
  lemma ClassPlaceholderKept(tail: String)
    requires '%' !in tail
    ensures Fill(" class=\"" + ("%s" + tail), []) == Filled(" class=\"" + ("%s" + tail), 0)
  {
    FillNothing(tail, []);
    FillKeeps(tail);
    FillPlain(" class=\"", "%s" + tail, []);
  }

  /** The second round fills the class placeholder of one table. */
  lemma SpacerSecondRound(carried: String, shown: String, size: String, rest: String, args: seq<String>)
    requires args != [] && '%' !in carried && '%' !in shown && '%' !in size
    ensures var f := Fill(rest, args[1..]);
      Fill(SpacerHalf(carried, shown, size) + rest, args)
      == Filled(SpacerTable(carried, args[0], shown, size) + f.text, f.used + 1)
  {
    var tail := shown + SpacerCell(size);
    var head := "<table " + carried + " class=\"";
    SpacerPieces(carried, shown, size, rest, args[0]);
    TailFill(tail, rest, args);
    FillPlain(head, "%s" + (tail + rest), args);
  }

  lemma TailFill(tail: String, rest: String, args: seq<String>)
    requires args != [] && '%' !in tail
    ensures var f := Fill(rest, args[1..]);
      Fill("%s" + (tail + rest), args) == Filled(args[0] + (tail + f.text), f.used + 1)
  {
    FillPlain(tail, rest, args[1..]);
    FillTakes(tail + rest, args);
  }

  /** How the pieces of one spacer table line up. */
  lemma SpacerPieces(carried: String, shown: String, size: String, rest: String, classes: String)
    requires '%' !in carried && '%' !in shown && '%' !in size
    ensures var tail, head := shown + SpacerCell(size), "<table " + carried + " class=\"";
      && '%' !in tail && '%' !in head
      && SpacerHalf(carried, shown, size) + rest == head + ("%s" + (tail + rest))
      && forall t :: SpacerTable(carried, classes, shown, size) + t == head + (classes + (tail + t))
  {
    CellPlain(size);
    assert '%' !in "<table " && '%' !in " class=\"";
  }

  /** The second round on the last table of a spacer. */
  lemma LastTableFill(carried: String, classes: String, shown: String, size: String, inner: String)
    requires '%' !in carried && '%' !in shown && '%' !in size
    ensures Fill(SpacerHalf(carried, shown, size), [classes, inner])
         == Filled(SpacerTable(carried, classes, shown, size), 1)
  {
    var half := SpacerHalf(carried, shown, size);
    SpacerSecondRound(carried, shown, size, [], [classes, inner]);
    assert half + [] == half;
    assert [classes, inner][1..] == [inner];
    assert Fill([], [inner]) == Filled([], 0);
    var t := SpacerTable(carried, classes, shown, size);
    assert t + [] == t;
  }

  /** Both rounds on a one-table spacer: the inner text lands after the
      table, one space away. */
  lemma OneTable(carried: String, classes: String, shown: String, size: String, inner: String)
    requires '%' !in carried && '%' !in shown && '%' !in size
    ensures Format(SpacerHalf(carried, shown, size), [classes, inner])
         == SpacerTable(carried, classes, shown, size) + " " + inner
  {
    LastTableFill(carried, classes, shown, size, inner);
    assert [classes, inner][1..] == [inner];
    assert Trailing([inner]) == " " + inner;
  }

  /** Both rounds on a two-table spacer. */
  lemma TwoTables(carried: String, classes: String, sm: String, lg: String, inner: String)
    requires '%' !in carried && '%' !in sm && '%' !in lg
    ensures Format(SpacerHalf(carried, " hide-for-large", sm) + SpacerHalf(carried, " show-for-large", lg),
                   [classes, classes, inner])
         == SpacerTable(carried, classes, " hide-for-large", sm)
            + SpacerTable(carried, classes, " show-for-large", lg) + " " + inner
  {
    assert '%' !in " hide-for-large" && '%' !in " show-for-large";
    var h2 := SpacerHalf(carried, " show-for-large", lg);
    SpacerSecondRound(carried, " hide-for-large", sm, h2, [classes, classes, inner]);
    assert [classes, classes, inner][1..] == [classes, inner];
    LastTableFill(carried, classes, " show-for-large", lg, inner);
    assert [classes, classes, inner][2..] == [inner];
    assert Trailing([inner]) == " " + inner;
  }

  lemma SizesPlain(attrs: seq<Attribute>)
    requires PlainSizes(attrs)
    ensures '%' !in SpacerSize(attrs)
    ensures Truthy(Lookup(attrs, "size-sm")) ==> '%' !in Lookup(attrs, "size-sm").value
    ensures Truthy(Lookup(attrs, "size-lg")) ==> '%' !in Lookup(attrs, "size-lg").value
  {
    assert "size" in ["size", "size-sm", "size-lg"];
    assert "size-sm" in ["size", "size-sm", "size-lg"];
    assert "size-lg" in ["size", "size-sm", "size-lg"];
    assert '%' !in "16";
  }

  /** The spacer's two rounds of util.format come to its tables with
      everything substituted, followed by a space and the inner HTML. */
  lemma SpacerShape(attrs: seq<Attribute>, carried: String, inner: String)
    requires '%' !in carried && PlainSizes(attrs)
    ensures var classes := Classes(["spacer"], attrs);
      Spacer(attrs, carried, inner) == SpacerTables(attrs, carried, classes) + " " + inner
  {
    SizesPlain(attrs);
    if Truthy(Lookup(attrs, "size-sm")) && Truthy(Lookup(attrs, "size-lg")) {
      SpacerBoth(attrs, carried, inner);
    } else {
      SpacerSingle(attrs, carried, inner);
    }
  }

  lemma SpacerBoth(attrs: seq<Attribute>, carried: String, inner: String)
    requires Truthy(Lookup(attrs, "size-sm")) && Truthy(Lookup(attrs, "size-lg"))
    requires '%' !in carried && '%' !in Lookup(attrs, "size-sm").value && '%' !in Lookup(attrs, "size-lg").value
    ensures var classes := Classes(["spacer"], attrs);
      Spacer(attrs, carried, inner) == SpacerTables(attrs, carried, classes) + " " + inner
  {
    var classes := Classes(["spacer"], attrs);
    var sm, lg := Lookup(attrs, "size-sm").value, Lookup(attrs, "size-lg").value;
    assert '%' !in " hide-for-large" && '%' !in " show-for-large";
    BothHtml(attrs, carried, classes, inner);
    SpacerFirstRound(carried, " hide-for-large", sm);
    SpacerFirstRound(carried, " show-for-large", lg);
    TwoTables(carried, classes, sm, lg, inner);
  }

  /** The two-table spacer's first round, second round and intended tables. */
  lemma BothHtml(attrs: seq<Attribute>, carried: String, classes: String, inner: String)
    requires Truthy(Lookup(attrs, "size-sm")) && Truthy(Lookup(attrs, "size-lg"))
    requires classes == Classes(["spacer"], attrs)
    ensures var sm, lg := Lookup(attrs, "size-sm").value, Lookup(attrs, "size-lg").value;
      && SpacerHtml(attrs, carried)
         == Format(SpacerFormat(" hide-for-large", sm), [carried]) + Format(SpacerFormat(" show-for-large", lg), [carried])
      && SpacerTables(attrs, carried, classes)
         == SpacerTable(carried, classes, " hide-for-large", sm) + SpacerTable(carried, classes, " show-for-large", lg)
      && Spacer(attrs, carried, inner) == Format(SpacerHtml(attrs, carried), [classes, classes, inner])
  {
  }

  /** The visibility class and size of a spacer with one table. */
  function SingleShown(attrs: seq<Attribute>): String
  {
    if Truthy(Lookup(attrs, "size-sm")) then " hide-for-large"
    else if Truthy(Lookup(attrs, "size-lg")) then " show-for-large"
    else ""
  }

  function SingleSize(attrs: seq<Attribute>): String
  {
    if Truthy(Lookup(attrs, "size-sm")) then Lookup(attrs, "size-sm").value
    else if Truthy(Lookup(attrs, "size-lg")) then Lookup(attrs, "size-lg").value
    else SpacerSize(attrs)
  }

  lemma SingleHtml(attrs: seq<Attribute>, carried: String, classes: String)
    requires !(Truthy(Lookup(attrs, "size-sm")) && Truthy(Lookup(attrs, "size-lg")))
    requires '%' !in SingleSize(attrs)
    ensures SpacerHtml(attrs, carried) == Format(SpacerFormat(SingleShown(attrs), SingleSize(attrs)), [carried])
    ensures SpacerTables(attrs, carried, classes) == SpacerTable(carried, classes, SingleShown(attrs), SingleSize(attrs))
  {
    var shown, size := SingleShown(attrs), SingleSize(attrs);
    var t := SpacerTable(carried, classes, shown, size);
    var h := Format(SpacerFormat(shown, size), [carried]);
    assert h + "" == h && "" + h == h;
    assert t + "" == t && "" + t == t;
  }

  lemma SpacerSingle(attrs: seq<Attribute>, carried: String, inner: String)
    requires !(Truthy(Lookup(attrs, "size-sm")) && Truthy(Lookup(attrs, "size-lg")))
    requires '%' !in carried && '%' !in SingleSize(attrs)
    ensures var classes := Classes(["spacer"], attrs);
      Spacer(attrs, carried, inner) == SpacerTables(attrs, carried, classes) + " " + inner
  {
    var classes := Classes(["spacer"], attrs);
    var shown, size := SingleShown(attrs), SingleSize(attrs);
    SingleShownPlain(attrs);
    SingleHtml(attrs, carried, classes);
    SpacerFirstRound(carried, shown, size);
    OneTable(carried, classes, shown, size, inner);
    assert Spacer(attrs, carried, inner) == Format(SpacerHtml(attrs, carried), [classes, inner]);
  }

  lemma SingleShownPlain(attrs: seq<Attribute>)
    ensures '%' !in SingleShown(attrs)
  {
    assert '%' !in " hide-for-large" && '%' !in " show-for-large";
  }

  // ---------------------------------------------------------------------
  // Dispatch

  /** The keys of the components map in the order the switch tests them. */
  const CaseKeys: seq<String> :=
    ["hLine", "columns", "row", "button", "container", "inky", "blockGrid",
     "menu", "menuItem", "center", "callout", "spacer", "wrapper"]

  const CaseKinds: seq<Kind> :=
    [HLineKind, ColumnsKind, RowKind, ButtonKind, ContainerKind, InkyKind, BlockGridKind,
     MenuKind, MenuItemKind, CenterKind, CalloutKind, SpacerKind, WrapperKind]

  /** The tag names a new Inky uses when the options name none. */
  const DefaultComponents: map<String, String> :=
    map["button" := "button", "row" := "row", "columns" := "columns",
        "container" := "container", "callout" := "callout", "inky" := "inky",
        "blockGrid" := "block-grid", "menu" := "menu", "menuItem" := "item",
        "center" := "center", "spacer" := "spacer", "wrapper" := "wrapper",
        "hLine" := "h-line"]

  /** Case i of the switch matches the tag `name`. */
  predicate CaseMatches(components: map<String, String>, name: String, i: nat)
    requires i < |CaseKeys|
  {
    CaseKeys[i] in components && components[CaseKeys[i]] == name
  }

  /** Case j is the first case from i on whose tag is `name`. */
  predicate FirstMatch(components: map<String, String>, name: String, i: nat, j: nat)
  {
    i <= j < |CaseKeys| && CaseMatches(components, name, j)
    && forall l :: i <= l < j ==> !CaseMatches(components, name, l)
  }

  function DispatchFrom(components: map<String, String>, name: String, i: nat): Kind
    requires i <= |CaseKeys|
    decreases |CaseKeys| - i
  {
    if i == |CaseKeys| then OtherKind
    else if CaseMatches(components, name, i) then CaseKinds[i]
    else DispatchFrom(components, name, i + 1)
  }

  /** The case of the switch `switch (node.name)` that runs. */
  function Dispatch(components: map<String, String>, name: String): Kind
  {
    DispatchFrom(components, name, 0)
  }

  /** Every case key names a tag, and no two cases name the same tag. */
  predicate DistinctTags(components: map<String, String>)
  {
    (forall i :: 0 <= i < |CaseKeys| ==> CaseKeys[i] in components)
    && forall i, j :: 0 <= i < j < |CaseKeys| ==> components[CaseKeys[i]] != components[CaseKeys[j]]
  }

  /** With distinct tags, each case's own tag selects that case. */
  lemma DispatchOwnTag(components: map<String, String>, i: nat)
    requires DistinctTags(components) && i < |CaseKeys|
    ensures Dispatch(components, components[CaseKeys[i]]) == CaseKinds[i]
  {
    DispatchFirst(components, components[CaseKeys[i]]);
    assert FirstMatch(components, components[CaseKeys[i]], 0, i);
  }

  /** The default tag of each case, in switch order. */
  const DefaultTags: seq<String> :=
    ["h-line", "columns", "row", "button", "container", "inky", "block-grid",
     "menu", "item", "center", "callout", "spacer", "wrapper"]

  lemma DefaultsInOrder()
    ensures forall i :: 0 <= i < |CaseKeys| ==> CaseKeys[i] in DefaultComponents && DefaultComponents[CaseKeys[i]] == DefaultTags[i]
  {
  }

  lemma DefaultTagsDistinct()
    ensures forall i, j :: 0 <= i < j < |DefaultTags| ==> DefaultTags[i] != DefaultTags[j]
  {
  }

  /** The default tag names are thirteen different tags. */
  lemma DefaultsDistinct()
    ensures DistinctTags(DefaultComponents)
  {
    DefaultsInOrder();
    DefaultTagsDistinct();
  }

  /** The switch takes the first case whose tag is the element's name, and the
      default when there is none. */
  lemma {:induction false} DispatchFromFirst(components: map<String, String>, name: String, i: nat)
    requires i <= |CaseKeys|
    ensures DispatchFrom(components, name, i) == OtherKind
        <==> forall j :: i <= j < |CaseKeys| ==> !CaseMatches(components, name, j)
    ensures forall j: nat :: FirstMatch(components, name, i, j) ==> DispatchFrom(components, name, i) == CaseKinds[j]
    decreases |CaseKeys| - i
  {
    if i < |CaseKeys| {
      DispatchFromFirst(components, name, i + 1);
    }
  }

  lemma DispatchFirst(components: map<String, String>, name: String)
    ensures Dispatch(components, name) == OtherKind
        <==> forall j :: 0 <= j < |CaseKeys| ==> !CaseMatches(components, name, j)
    ensures forall j: nat :: FirstMatch(components, name, 0, j) ==> Dispatch(components, name) == CaseKinds[j]
  {
    DispatchFromFirst(components, name, 0);
  }

  // ---------------------------------------------------------------------
  // The factory

  /** A custom element as the factory sees it: its tag name, its attributes
      in order, and its inner HTML as element.html() serialises it. */
  datatype Element = Element(name: String, attrs: seq<Attribute>, inner: String)

  /** _componentFactory for one element. `ctx` holds what _makeColumn reads
      from the tree; `outer` is the element's own serialisation, which the
      center case returns and the default case wraps (see `Other`). */
  function Factory(components: map<String, String>, columnCount: nat, e: Element,
                   ctx: Context, outer: String): String
  {
    var carried := Render(Carried(e.attrs));
    var kind := Dispatch(components, e.name);
    if Framed(kind) then FramedMarkup(kind, e.attrs, carried, columnCount, ctx, e.inner)
    else Unframed(kind, e.attrs, carried, e.inner, outer)
  }

  function FramedMarkup(kind: Kind, attrs: seq<Attribute>, carried: String, columnCount: nat,
                        ctx: Context, inner: String): String
    requires Framed(kind)
  {
    Wrap(Open(kind, attrs, carried, columnCount, ctx), inner, Close(kind, attrs, columnCount, ctx))
  }

  function Unframed(kind: Kind, attrs: seq<Attribute>, carried: String, inner: String, outer: String): String
    requires !Framed(kind)
  {
    match kind
    case HLineKind => HLine(attrs)
    case InkyKind => InkyLogo
    case CenterKind => outer
    case SpacerKind => Spacer(attrs, carried, inner)
    case OtherKind => Other(outer)
  }

  /** The frame of a button is the anchor and the centring nested inside
      the button table, as the source builds them. */
  lemma ButtonFrame(attrs: seq<Attribute>, carried: String, inner: String, columnCount: nat, ctx: Context)
    ensures FramedMarkup(ButtonKind, attrs, carried, columnCount, ctx, inner) == Button(attrs, carried, inner)
  {
    var a, z := LinkOpen(attrs, carried), LinkClose(attrs);
    var c, d := CentreOpen(attrs), CentreClose(attrs);
    LinkParts(attrs, carried, inner);
    CentreParts(attrs, a + inner + z);
    NestAssoc(ButtonTableOpen(attrs), c, a, inner, z, d, ButtonTableClose(attrs));
  }

  lemma LinkParts(attrs: seq<Attribute>, carried: String, inner: String)
    ensures ButtonLink(attrs, carried, inner) == LinkOpen(attrs, carried) + inner + LinkClose(attrs)
  {
    if !Truthy(Lookup(attrs, "href")) {
      assert [] + inner + [] == inner;
    }
  }

  lemma CentreParts(attrs: seq<Attribute>, link: String)
    ensures ButtonCentre(attrs, link) == CentreOpen(attrs) + link + CentreClose(attrs)
  {
    if !Expanded(attrs) {
      assert [] + link + [] == link;
    }
  }

  lemma NestAssoc(t: String, c: String, a: String, inner: String, z: String, d: String, u: String)
    ensures (t + c + a) + inner + (z + d + u) == t + (c + (a + inner + z) + d) + u
  {
  }

  /** A column's frame is the markup of _makeColumn. */
  lemma ColumnFrame(attrs: seq<Attribute>, inner: String, columnCount: nat, ctx: Context)
    ensures FramedMarkup(ColumnsKind, attrs, Render(Carried(attrs)), columnCount, ctx, inner)
         == ColumnHtml(columnCount, attrs, ctx, inner)
  {
  }

  /** The inner text appears once, verbatim, between an opening and a
      closing part that do not depend on it. */
  lemma WrapSplice(open: String, inner: String, close: String)
    ensures var empty := Wrap(open, [], close);
      Wrap(open, inner, close) == empty[..|open|] + inner + empty[|open|..]
  {
    var empty := Wrap(open, [], close);
    assert empty[..|open|] == open;
    assert empty[|open|..] == close;
  }

  /** For a framed rule the factory's output is that rule's frame around
      the inner HTML. */
  lemma FactoryFramed(components: map<String, String>, columnCount: nat, e: Element, ctx: Context, outer: String)
    requires Framed(Dispatch(components, e.name))
    ensures Factory(components, columnCount, e, ctx, outer)
         == FramedMarkup(Dispatch(components, e.name), e.attrs, Render(Carried(e.attrs)), columnCount, ctx, e.inner)
  {
  }

  /** A frame holds its inner HTML right after its opening part. */
  lemma FramedSplice(kind: Kind, attrs: seq<Attribute>, carried: String, columnCount: nat,
                     ctx: Context, inner: String)
    requires Framed(kind)
    ensures var empty := FramedMarkup(kind, attrs, carried, columnCount, ctx, []);
      var p := |Open(kind, attrs, carried, columnCount, ctx)|;
      p <= |empty| && FramedMarkup(kind, attrs, carried, columnCount, ctx, inner) == empty[..p] + inner + empty[p..]
  {
    WrapSplice(Open(kind, attrs, carried, columnCount, ctx), inner, Close(kind, attrs, columnCount, ctx));
  }

  /** Every framed rule puts the element's inner HTML in verbatim, once, at
      one spot of the markup it makes for an empty element. */
  lemma InnerSpliced(components: map<String, String>, columnCount: nat, e: Element, ctx: Context, outer: String)
    requires Framed(Dispatch(components, e.name))
    ensures var empty := Factory(components, columnCount, e.(inner := []), ctx, outer);
      exists p: nat :: p <= |empty|
        && Factory(components, columnCount, e, ctx, outer) == empty[..p] + e.inner + empty[p..]
  {
    var kind := Dispatch(components, e.name);
    var carried := Render(Carried(e.attrs));
    FactoryFramed(components, columnCount, e, ctx, outer);
    FactoryFramed(components, columnCount, e.(inner := []), ctx, outer);
    FramedSplice(kind, e.attrs, carried, columnCount, ctx, e.inner);
  }
}
