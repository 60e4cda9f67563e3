/** The text passes over HTML void elements (index.ts,
    _normalizeVoidElements and _convertSelfClosingTags).  Each regular
    expression is modelled as a matcher that is tried at the start of a
    suffix and looks only forward, so a global String.prototype.replace is a
    left-to-right scan: where the matcher succeeds, its output replaces the
    matched text and the scan resumes after it; elsewhere one character is
    copied. */
module VoidTags {
  import opened TextUtil

  /** The void elements of the HTML standard, plus the legacy `param`, in
      the order of the alternation in the expressions. */
  const VoidNames: seq<String> :=
    ["area", "base", "br", "col", "embed", "hr", "img", "input", "link", "meta",
     "param", "source", "track", "wbr"]

  /** `x` is one of `names`. */
  predicate InNames(x: String, names: seq<String>)
    decreases |names|
  {
    names != [] && (x == names[0] || InNames(x, names[1..]))
  }

  /** `x` is a void element name, as `voidElements.includes(x)` tests it. */
  predicate IsVoidName(x: String)
  {
    InNames(x, VoidNames)
  }

  lemma {:induction false} InNamesIff(x: String, names: seq<String>)
    ensures InNames(x, names) <==> x in names
    decreases |names|
  {
    if names != [] {
      InNamesIff(x, names[1..]);
      assert names == [names[0]] + names[1..];
    }
  }

  /** `s` starts with `w`, ignoring ASCII case. */
  predicate StartsIgnoringCase(s: String, w: String)
  {
    |w| <= |s| && SameIgnoringCase(s[..|w|], w)
  }

  /** The first alternative of `names` that `s` starts with, as the
      alternation `(area|base|...|wbr)` under the `i` flag tries them. */
  function FirstVoidPrefix(s: String, names: seq<String>): (r: Option<String>)
    ensures r.Some? ==> StartsIgnoringCase(s, r.value)
  {
    if names == [] then None
    else if StartsIgnoringCase(s, names[0]) then Some(names[0])
    else FirstVoidPrefix(s, names[1..])
  }

  /** The length of the run of `\s` characters `s` starts with. */
  function SpaceRun(s: String): (r: nat)
    ensures r <= |s|
  {
    if s == [] || !IsSpace(s[0]) then 0 else 1 + SpaceRun(s[1..])
  }

  /** The position of the first `>` in `s`. */
  function FirstGt(s: String): (r: Option<nat>)
    ensures r.Some? ==> r.value < |s|
  {
    if s == [] then None
    else if s[0] == '>' then Some(0)
    else match FirstGt(s[1..])
      case None => None
      case Some(f) => Some(f + 1)
  }

  /** `\s*<\/name` at the start of `t`, the name compared ignoring case:
      the position just after the name. */
  function CloseStart(t: String, name: String): (r: Option<nat>)
    ensures r.Some? ==> r.value <= |t|
  {
    var g := SpaceRun(t);
    if g + 2 <= |t| && t[g] == '<' && t[g + 1] == '/' && StartsIgnoringCase(t[g + 2..], name)
    then Some(g + 2 + |name|)
    else None
  }

  /** The closing tag the lookahead `(?!\s*<\/\1)` refuses. */
  predicate ClosedAhead(t: String, name: String)
  {
    CloseStart(t, name).Some?
  }

  /** `\s*<\/name\s*>` at the start of `t`: its length. */
  function ClosingTag(t: String, name: String): (r: Option<nat>)
    ensures r.Some? ==> r.value <= |t|
  {
    match CloseStart(t, name)
    case None => None
    case Some(p) =>
      var e := p + SpaceRun(t[p..]);
      if e < |t| && t[e] == '>' then Some(e + 1) else None
  }

  /** `s` without its trailing `\s` characters. */
  function TrimEnd(s: String): (r: String)
    ensures |r| <= |s|
  {
    if s == [] || !IsSpace(s[|s| - 1]) then s else TrimEnd(s[..|s| - 1])
  }

  /** attrs.trim().endsWith("/"). */
  predicate EndsWithSlash(attrs: String)
  {
    var t := TrimEnd(attrs);
    |t| > 0 && t[|t| - 1] == '/'
  }

  /** The replacement `<${tagName}${attrs || ""} />` of the first two passes. */
  function SelfClosed(name: String, attrs: String): String
  {
    "<" + name + attrs + " />"
  }

  /** A successful match: how many characters it consumed and what replaces them. */
  datatype Hit = Hit(len: nat, out: String)

  /* ---------------------------------------------------------------------
     _normalizeVoidElements, and the second pass of _convertSelfClosingTags:
     /<(area|...|wbr)(\s[^>]*?)>(?!\s*<\/\1)/gi
     A void name, one `\s`, everything up to the first `>` (the lazy group
     cannot pass a `>`), and no closing tag of the same name after it.
     --------------------------------------------------------------------- */

  function NormalizeAt(s: String): (r: Option<Hit>)
    ensures r.Some? ==> 0 < r.value.len <= |s|
  {
    if |s| == 0 || s[0] != '<' then None
    else match FirstVoidPrefix(s[1..], VoidNames)
      case None => None
      case Some(nm) => NormalizeNamed(s, 1 + |nm|)
  }

  /** The rest of the match once the name `s[1..n]` is recognised. */
  function NormalizeNamed(s: String, n: nat): (r: Option<Hit>)
    requires 1 <= n <= |s|
    ensures r.Some? ==> n < r.value.len <= |s|
  {
    if n >= |s| || !IsSpace(s[n]) then None
    else match FirstGt(s[n..])
      case None => None
      case Some(f) =>
        var gt := n + f;
        var attrs := s[n..gt];
        if ClosedAhead(s[gt + 1..], s[1..n]) then None
        else if EndsWithSlash(attrs) then Some(Hit(gt + 1, s[..gt + 1]))
        else Some(Hit(gt + 1, SelfClosed(s[1..n], attrs)))
  }

  function Normalize(s: String): String
    decreases |s|
  {
    if s == [] then []
    else match NormalizeAt(s)
      case Some(h) => h.out + Normalize(s[h.len..])
      case None => [s[0]] + Normalize(s[1..])
  }

  /* ---------------------------------------------------------------------
     First pass of _convertSelfClosingTags:
     /<(area|...|wbr)(\s[^>]*)?\s*>\s*<\/\1\s*>/gi
     A void name followed by `\s` or `>`, everything up to the first `>`,
     then `\s*`, a closing tag of the same name (ignoring case), `\s*>`.
     --------------------------------------------------------------------- */

  function CollapsePairedAt(s: String): (r: Option<Hit>)
    ensures r.Some? ==> 0 < r.value.len <= |s|
  {
    if |s| == 0 || s[0] != '<' then None
    else match FirstVoidPrefix(s[1..], VoidNames)
      case None => None
      case Some(nm) => CollapseNamed(s, 1 + |nm|)
  }

  /** The rest of the match once the name `s[1..n]` is recognised. */
  function CollapseNamed(s: String, n: nat): (r: Option<Hit>)
    requires 1 <= n <= |s|
    ensures r.Some? ==> n < r.value.len <= |s|
  {
    if n >= |s| || !(IsSpace(s[n]) || s[n] == '>') then None
    else CollapseAttrs(s, n)
  }

  /** The attributes up to the first `>`, then the closing tag. */
  function CollapseAttrs(s: String, n: nat): (r: Option<Hit>)
    requires 1 <= n <= |s|
    ensures r.Some? ==> n < r.value.len <= |s|
  {
    match FirstGt(s[n..])
    case None => None
    case Some(f) => CollapseClosed(s[1..n], s[n..n + f], s[n + f + 1..])
  }

  /** The match `<name attrs>` once the closing tag must follow in `after`. */
  function CollapseClosed(name: String, attrs: String, after: String): (r: Option<Hit>)
    ensures r.Some? ==> |name| + |attrs| + 2 < r.value.len <= |name| + |attrs| + 2 + |after|
  {
    match ClosingTag(after, name)
    case None => None
    case Some(c) => Some(Hit(|name| + |attrs| + 2 + c, SelfClosed(name, attrs)))
  }

  function CollapsePaired(s: String): String
    decreases |s|
  {
    if s == [] then []
    else match CollapsePairedAt(s)
      case Some(h) => h.out + CollapsePaired(s[h.len..])
      case None => [s[0]] + CollapsePaired(s[1..])
  }

  /* ---------------------------------------------------------------------
     Third pass of _convertSelfClosingTags:
     /<([a-zA-Z][a-zA-Z0-9-]*)((?:\s+[^>]*)?)\s*\/>/g
     The longest tag name, then `/>` where the `>` is the first one after the
     name; what lies between the name and that `/` must be empty or start
     with `\s`, and is the second group.
     --------------------------------------------------------------------- */

  predicate IsNameChar(c: char)
  {
    IsAsciiLetter(c) || IsAsciiDigit(c) || c == '-'
  }

  /** The length of the run of `[a-zA-Z0-9-]` characters `s` starts with. */
  function NameRun(s: String): (r: nat)
    ensures r <= |s|
  {
    if s == [] || !IsNameChar(s[0]) then 0 else 1 + NameRun(s[1..])
  }

  function CloseNonVoidAt(s: String): (r: Option<Hit>)
    ensures r.Some? ==> 0 < r.value.len <= |s|
  {
    if |s| < 2 || s[0] != '<' || !IsAsciiLetter(s[1]) then None
    else CloseNamed(s, 1 + NameRun(s[1..]))
  }

  /** The rest of the match once the name `s[1..n]` is read. */
  function CloseNamed(s: String, n: nat): (r: Option<Hit>)
    requires 1 <= n <= |s|
    ensures r.Some? ==> 0 < r.value.len <= |s|
  {
    match FirstGt(s[n..])
    case None => None
    case Some(f) => SelfClosingTag(s[1..n], s[n..n + f])
  }

  /** The tag `<name inner>` once its first `>` is known: a match when
      `inner` is `/`, or `\s` ... `/`; the second group is `inner` without
      its `/`.  A void name keeps the tag, any other gets a closing tag. */
  function SelfClosingTag(name: String, inner: String): (r: Option<Hit>)
    ensures r.Some? ==> r.value.len == |name| + |inner| + 2
  {
    if inner == [] || inner[|inner| - 1] != '/' || !(|inner| == 1 || IsSpace(inner[0])) then None
    else Some(Hit(|name| + |inner| + 2, SelfClosingReplacement(name, inner[..|inner| - 1])))
  }

  /** What the third pass puts in place of `<name attrs/>`: the match itself
      for a void name (compared lower-cased), the expanded pair otherwise. */
  function SelfClosingReplacement(name: String, attrs: String): String
  {
    if IsVoidName(LowerString(name)) then "<" + name + attrs + "/>" else Expanded(name, attrs)
  }

  /** The replacement `<${tagName}${attrs || ""}></${tagName}>` of the third pass. */
  function Expanded(name: String, attrs: String): String
  {
    "<" + name + attrs + "></" + name + ">"
  }

  function CloseNonVoid(s: String): String
    decreases |s|
  {
    if s == [] then []
    else match CloseNonVoidAt(s)
      case Some(h) => h.out + CloseNonVoid(s[h.len..])
      case None => [s[0]] + CloseNonVoid(s[1..])
  }

  /** The three passes of _convertSelfClosingTags, in order. */
  function ConvertTags(s: String): String
  {
    CloseNonVoid(Normalize(CollapsePaired(s)))
  }

  /** _convertSelfClosingTags: the three passes, each reassigning `html`. */
  method ConvertSelfClosingTags(input: String) returns (html: String)
    ensures html == ConvertTags(input)
  {
    html := input;
    html := CollapsePaired(html);
    html := Normalize(html);
    html := CloseNonVoid(html);
  }

  /* ---------------------------------------------------------------------
     The void names: lower-case letters, and none a prefix of another, so a
     name followed by a non-letter is the one alternative that matches.
     --------------------------------------------------------------------- */

  lemma VoidNamesLower(e: String, k: nat)
    requires e in VoidNames && k < |e|
    ensures 'a' <= e[k] <= 'z'
  {
  }

  lemma VoidNamesPrefixFree(e: String, f: String)
    requires e in VoidNames && f in VoidNames && |e| <= |f| && e == f[..|e|]
    ensures e == f
  {
    assert |e| >= 2;
    assert e[0] == f[0] && e[1] == f[1];
  }

  /** Which void name `nm + x` can start with, when x starts with a non-letter. */
  lemma StartsOnlyWith(nm: String, x: String, e: String)
    requires nm in VoidNames && e in VoidNames && x != [] && !IsAsciiLetter(x[0])
    requires StartsIgnoringCase(nm + x, e)
    ensures e == nm
  {
    var s := nm + x;
    if |e| > |nm| {
      VoidNamesLower(e, |nm|);
      assert false;
    }
    forall k | 0 <= k < |e|
      ensures e[k] == nm[k]
    {
      VoidNamesLower(e, k);
      VoidNamesLower(nm, k);
      assert Lower(s[..|e|][k]) == Lower(e[k]);
    }
    assert e == nm[..|e|];
    VoidNamesPrefixFree(e, nm);
  }

  lemma {:induction false} FirstVoidPrefixUnique(s: String, names: seq<String>, nm: String)
    requires nm in names && StartsIgnoringCase(s, nm)
    requires forall e :: e in names && StartsIgnoringCase(s, e) ==> e == nm
    ensures FirstVoidPrefix(s, names) == Some(nm)
  {
    if names[0] != nm {
      FirstVoidPrefixUnique(s, names[1..], nm);
    }
  }

  /** A void name followed by a non-letter is recognised as that name. */
  lemma FirstVoidPrefixOf(nm: String, x: String)
    requires IsVoidName(nm) && x != [] && !IsAsciiLetter(x[0])
    ensures FirstVoidPrefix(nm + x, VoidNames) == Some(nm)
  {
    InNamesIff(nm, VoidNames);
    assert (nm + x)[..|nm|] == nm;
    forall e | e in VoidNames && StartsIgnoringCase(nm + x, e)
      ensures e == nm
    {
      StartsOnlyWith(nm, x, e);
    }
    FirstVoidPrefixUnique(nm + x, VoidNames, nm);
  }

  /* ---------------------------------------------------------------------
     _normalizeVoidElements on one void start tag.
     --------------------------------------------------------------------- */

  /** The start tag `<nm attrs>` followed by `rest`: it is rewritten unless a
      closing tag of the same name follows; the rewrite adds ` /` unless the
      attributes already end with `/`, in which case the text is kept. */
  lemma NormalizeAtVoidTag(nm: String, attrs: String, rest: String)
    requires IsVoidName(nm) && attrs != [] && IsSpace(attrs[0]) && '>' !in attrs
    ensures NormalizeAt("<" + nm + attrs + ">" + rest)
         == if ClosedAhead(rest, nm) then None
            else if EndsWithSlash(attrs) then Some(Hit(|nm| + |attrs| + 2, "<" + nm + attrs + ">"))
            else Some(Hit(|nm| + |attrs| + 2, SelfClosed(nm, attrs)))
  {
    var tail := attrs + (">" + rest);
    assert "<" + nm + attrs + ">" + rest == "<" + nm + tail;
    FirstVoidPrefixOf(nm, tail);
    FirstGtAfter(attrs, ">" + rest);
    NormalizeAtTag(nm, attrs, rest);
  }

  lemma NormalizeAtTag(nm: String, attrs: String, rest: String)
    requires FirstVoidPrefix(nm + (attrs + (">" + rest)), VoidNames) == Some(nm)
    requires attrs != [] && IsSpace(attrs[0])
    requires FirstGt(attrs + (">" + rest)) == Some(|attrs|)
    ensures NormalizeAt("<" + nm + (attrs + (">" + rest)))
         == if ClosedAhead(rest, nm) then None
            else if EndsWithSlash(attrs) then Some(Hit(|nm| + |attrs| + 2, "<" + nm + attrs + ">"))
            else Some(Hit(|nm| + |attrs| + 2, SelfClosed(nm, attrs)))
  {
    NormalizeAtNamed(nm, attrs + (">" + rest));
    NormalizeNamedTag(nm, attrs, rest);
  }

  lemma NormalizeAtNamed(nm: String, tail: String)
    requires FirstVoidPrefix(nm + tail, VoidNames) == Some(nm)
    ensures NormalizeAt("<" + nm + tail) == NormalizeNamed("<" + nm + tail, 1 + |nm|)
  {
    assert ("<" + nm + tail)[1..] == nm + tail;
  }

  lemma NormalizeNamedTag(nm: String, attrs: String, rest: String)
    requires attrs != [] && IsSpace(attrs[0])
    requires FirstGt(attrs + (">" + rest)) == Some(|attrs|)
    ensures NormalizeNamed("<" + nm + (attrs + (">" + rest)), 1 + |nm|)
         == if ClosedAhead(rest, nm) then None
            else if EndsWithSlash(attrs) then Some(Hit(|nm| + |attrs| + 2, "<" + nm + attrs + ">"))
            else Some(Hit(|nm| + |attrs| + 2, SelfClosed(nm, attrs)))
  {
    var s := "<" + nm + (attrs + (">" + rest));
    TagSlices(nm, attrs, rest);
    NamedTagAt(s, 1 + |nm| + |attrs|, nm, attrs, rest);
  }

  /** The same, with the pieces given as slices of the text. */
  lemma NamedTagAt(s: String, gt: nat, nm: String, attrs: String, rest: String)
    requires gt == 1 + |nm| + |attrs| && gt < |s| && attrs != [] && IsSpace(attrs[0])
    requires FirstGt(s[1 + |nm|..]) == Some(|attrs|)
    requires nm == s[1..1 + |nm|] && attrs == s[1 + |nm|..gt] && rest == s[gt + 1..]
    requires s[..gt + 1] == "<" + nm + attrs + ">" && s[1 + |nm|] == attrs[0]
    ensures NormalizeNamed(s, 1 + |nm|)
         == if ClosedAhead(rest, nm) then None
            else if EndsWithSlash(attrs) then Some(Hit(|nm| + |attrs| + 2, "<" + nm + attrs + ">"))
            else Some(Hit(|nm| + |attrs| + 2, SelfClosed(nm, attrs)))
  {
    NormalizeNamedAt(s, 1 + |nm|, gt, nm, attrs, rest, s[..gt + 1]);
  }

  /** NormalizeNamed once the first `>` after the name is known, with the
      pieces of the match named. */
  lemma NormalizeNamedAt(s: String, n: nat, gt: nat, name: String, attrs: String, rest: String, matched: String)
    requires 1 <= n < gt < |s| && IsSpace(s[n]) && FirstGt(s[n..]) == Some(gt - n)
    requires name == s[1..n] && attrs == s[n..gt] && rest == s[gt + 1..] && matched == s[..gt + 1]
    ensures NormalizeNamed(s, n)
         == if ClosedAhead(rest, name) then None
            else if EndsWithSlash(attrs) then Some(Hit(gt + 1, matched))
            else Some(Hit(gt + 1, SelfClosed(name, attrs)))
  {
  }

  /** The first `>` of a + b, when a has none, is the first `>` of b. */
  lemma {:induction false} FirstGtAfter(a: String, b: String)
    requires '>' !in a && b != [] && b[0] == '>'
    ensures FirstGt(a + b) == Some(|a|)
  {
    if a != [] {
      assert (a + b)[1..] == a[1..] + b;
      FirstGtAfter(a[1..], b);
    } else {
      assert a + b == b;
    }
  }

  /** A void start tag with attributes, not already self-closed and not
      followed by its closing tag, becomes `<nm attrs />`. */
  lemma NormalizeSelfCloses(nm: String, attrs: String, rest: String)
    requires IsVoidName(nm) && attrs != [] && IsSpace(attrs[0]) && '>' !in attrs
    requires !EndsWithSlash(attrs) && !ClosedAhead(rest, nm)
    ensures Normalize("<" + nm + attrs + ">" + rest) == SelfClosed(nm, attrs) + Normalize(rest)
  {
    var s := "<" + nm + attrs + ">" + rest;
    NormalizeAtVoidTag(nm, attrs, rest);
    assert s[|nm| + |attrs| + 2..] == rest;
  }

  /** A void start tag already ending in `/` is left as it is. */
  lemma NormalizeKeepsSelfClosed(nm: String, attrs: String, rest: String)
    requires IsVoidName(nm) && attrs != [] && IsSpace(attrs[0]) && '>' !in attrs
    requires EndsWithSlash(attrs) && !ClosedAhead(rest, nm)
    ensures Normalize("<" + nm + attrs + ">" + rest) == "<" + nm + attrs + ">" + Normalize(rest)
  {
    var s := "<" + nm + attrs + ">" + rest;
    NormalizeAtVoidTag(nm, attrs, rest);
    assert s[|nm| + |attrs| + 2..] == rest;
  }

  /** A run of `\s` characters, then a character that is not one. */
  lemma {:induction false} SpaceRunOf(ws: String, x: String)
    requires forall i :: 0 <= i < |ws| ==> IsSpace(ws[i])
    requires x != [] && !IsSpace(x[0])
    ensures SpaceRun(ws + x) == |ws|
  {
    if ws != [] {
      assert (ws + x)[1..] == ws[1..] + x;
      SpaceRunOf(ws[1..], x);
    } else {
      assert ws + x == x;
    }
  }

  /* ---------------------------------------------------------------------
     First pass of _convertSelfClosingTags on one paired void element.
     --------------------------------------------------------------------- */

  lemma CollapseAtNamed(nm: String, tail: String)
    requires FirstVoidPrefix(nm + tail, VoidNames) == Some(nm)
    ensures CollapsePairedAt("<" + nm + tail) == CollapseNamed("<" + nm + tail, 1 + |nm|)
  {
    assert ("<" + nm + tail)[1..] == nm + tail;
  }

  /** CollapseNamed once the first `>` is known. */
  lemma CollapseNamedAt(s: String, n: nat)
    requires 1 <= n < |s| && (IsSpace(s[n]) || s[n] == '>')
    ensures CollapseNamed(s, n) == CollapseAttrs(s, n)
  {
  }

  /** CollapseAttrs once the first `>` is known. */
  lemma CollapseAttrsPieces(s: String, n: nat, f: nat, name: String, attrs: String, after: String)
    requires 1 <= n <= |s| && FirstGt(s[n..]) == Some(f)
    requires name == s[1..n] && attrs == s[n..n + f] && after == s[n + f + 1..]
    ensures CollapseAttrs(s, n) == CollapseClosed(name, attrs, after)
  {
  }

  /** `\s*</cl` with cl the name in any case: the position after cl. */
  lemma CloseStartOf(ws1: String, cl: String, x: String, name: String)
    requires SameIgnoringCase(cl, name)
    requires forall i :: 0 <= i < |ws1| ==> IsSpace(ws1[i])
    ensures CloseStart(ws1 + ("</" + (cl + x)), name) == Some(|ws1| + 2 + |cl|)
  {
    var t := ws1 + ("</" + (cl + x));
    SpaceRunOf(ws1, "</" + (cl + x));
    assert t[|ws1|..] == "</" + (cl + x);
    assert t[|ws1| + 2..][..|name|] == cl;
  }

  /** ClosingTag once the name is passed: the `\s*>` after it. */
  lemma ClosingTagAfter(t: String, name: String, p: nat, ws2: String, rest: String)
    requires CloseStart(t, name) == Some(p) && t[p..] == ws2 + (">" + rest)
    requires forall i :: 0 <= i < |ws2| ==> IsSpace(ws2[i])
    ensures ClosingTag(t, name) == Some(p + |ws2| + 1)
  {
    SpaceRunOf(ws2, ">" + rest);
    assert t[p + |ws2|] == (ws2 + (">" + rest))[|ws2|];
  }

  /** The closing tag `\s*</cl\s*>` of a name equal to cl ignoring case. */
  lemma ClosingTagOf(ws1: String, cl: String, ws2: String, rest: String, name: String)
    requires SameIgnoringCase(cl, name)
    requires forall i :: 0 <= i < |ws1| ==> IsSpace(ws1[i])
    requires forall i :: 0 <= i < |ws2| ==> IsSpace(ws2[i])
    ensures ClosingTag(ws1 + ("</" + (cl + (ws2 + (">" + rest)))), name) == Some(|ws1| + |cl| + |ws2| + 3)
  {
    var t := ws1 + ("</" + (cl + (ws2 + (">" + rest))));
    CloseStartOf(ws1, cl, ws2 + (">" + rest), name);
    var p := |ws1| + 2 + |cl|;
    assert t[p..] == ws2 + (">" + rest);
    ClosingTagAfter(t, name, p, ws2, rest);
  }

  /** The first pass tries a void start tag against the closing tag that
      must follow it. */
  lemma CollapseVoidHit(nm: String, attrs: String, after: String)
    requires IsVoidName(nm) && '>' !in attrs && (attrs == [] || IsSpace(attrs[0]))
    ensures CollapsePairedAt("<" + nm + (attrs + (">" + after))) == CollapseClosed(nm, attrs, after)
  {
    FirstVoidPrefixOf(nm, attrs + (">" + after));
    FirstGtAfter(attrs, ">" + after);
    CollapseTagHit(nm, attrs, after);
  }

  lemma CollapseTagHit(nm: String, attrs: String, after: String)
    requires FirstVoidPrefix(nm + (attrs + (">" + after)), VoidNames) == Some(nm)
    requires attrs == [] || IsSpace(attrs[0])
    requires FirstGt(attrs + (">" + after)) == Some(|attrs|)
    ensures CollapsePairedAt("<" + nm + (attrs + (">" + after))) == CollapseClosed(nm, attrs, after)
  {
    CollapseAtNamed(nm, attrs + (">" + after));
    CollapseNamedTag(nm, attrs, after);
  }

  lemma CollapseNamedTag(nm: String, attrs: String, after: String)
    requires attrs == [] || IsSpace(attrs[0])
    requires FirstGt(attrs + (">" + after)) == Some(|attrs|)
    ensures CollapseNamed("<" + nm + (attrs + (">" + after)), 1 + |nm|) == CollapseClosed(nm, attrs, after)
  {
    var s := "<" + nm + (attrs + (">" + after));
    TagSlices(nm, attrs, after);
    CollapseNamedAt(s, 1 + |nm|);
    CollapseAttrsTag(nm, attrs, after);
  }

  lemma CollapseAttrsTag(nm: String, attrs: String, after: String)
    requires FirstGt(attrs + (">" + after)) == Some(|attrs|)
    ensures CollapseAttrs("<" + nm + (attrs + (">" + after)), 1 + |nm|) == CollapseClosed(nm, attrs, after)
  {
    var s := "<" + nm + (attrs + (">" + after));
    TagSlices(nm, attrs, after);
    CollapseAttrsPieces(s, 1 + |nm|, |attrs|, nm, attrs, after);
  }

  lemma CollapseClosedOf(name: String, attrs: String, after: String, c: nat)
    requires ClosingTag(after, name) == Some(c)
    ensures CollapseClosed(name, attrs, after) == Some(Hit(|name| + |attrs| + 2 + c, SelfClosed(name, attrs)))
  {
  }

  /** One step of the scan where the matcher hits. */
  lemma CollapsePairedHit(s: String, h: Hit, rest: String)
    requires CollapsePairedAt(s) == Some(h) && rest == s[h.len..]
    ensures CollapsePaired(s) == h.out + CollapsePaired(rest)
  {
  }

  /** A void start tag followed by its closing tag, as the scan sees it. */
  lemma CollapseVoidPair(nm: String, attrs: String, after: String, c: nat)
    requires CollapsePairedAt("<" + nm + (attrs + (">" + after))) == CollapseClosed(nm, attrs, after)
    requires ClosingTag(after, nm) == Some(c)
    ensures CollapsePaired("<" + nm + (attrs + (">" + after)))
         == SelfClosed(nm, attrs) + CollapsePaired(after[c..])
  {
    var s := "<" + nm + (attrs + (">" + after));
    var h := Hit(|nm| + |attrs| + 2 + c, SelfClosed(nm, attrs));
    CollapseClosedOf(nm, attrs, after, c);
    HitRest(nm, attrs, after, c);
    CollapsePairedHit(s, h, after[c..]);
  }

  lemma HitRest(nm: String, attrs: String, after: String, c: nat)
    requires c <= |after|
    ensures ("<" + nm + (attrs + (">" + after)))[|nm| + |attrs| + 2 + c..] == after[c..]
  {
  }

  lemma PairedShape(nm: String, attrs: String, ws1: String, cl: String, ws2: String, rest: String)
    ensures "<" + nm + attrs + ">" + ws1 + "</" + cl + ws2 + ">" + rest
         == "<" + nm + (attrs + (">" + (ws1 + ("</" + (cl + (ws2 + (">" + rest)))))))
    ensures (ws1 + ("</" + (cl + (ws2 + (">" + rest)))))[|ws1| + |cl| + |ws2| + 3..] == rest
  {
  }

  /** `<nm attrs>`, optional `\s`, `</cl>` with cl the same name in any case
      and optional `\s` before its `>`, collapses to `<nm attrs />`. */
  lemma CollapsePairedVoid(nm: String, attrs: String, ws1: String, cl: String, ws2: String, rest: String)
    requires IsVoidName(nm) && SameIgnoringCase(cl, nm)
    requires '>' !in attrs && (attrs == [] || IsSpace(attrs[0]))
    requires forall i :: 0 <= i < |ws1| ==> IsSpace(ws1[i])
    requires forall i :: 0 <= i < |ws2| ==> IsSpace(ws2[i])
    ensures CollapsePaired("<" + nm + attrs + ">" + ws1 + "</" + cl + ws2 + ">" + rest)
         == SelfClosed(nm, attrs) + CollapsePaired(rest)
  {
    var after := ws1 + ("</" + (cl + (ws2 + (">" + rest))));
    var c := |ws1| + |cl| + |ws2| + 3;
    PairedShape(nm, attrs, ws1, cl, ws2, rest);
    ClosingTagOf(ws1, cl, ws2, rest, nm);
    assert ClosingTag(after, nm) == Some(c);
    CollapseVoidHit(nm, attrs, after);
    assert CollapsePairedAt("<" + nm + (attrs + (">" + after))) == CollapseClosed(nm, attrs, after);
    CollapseVoidPair(nm, attrs, after, c);
  }

  /* ---------------------------------------------------------------------
     Third pass of _convertSelfClosingTags on one self-closed tag.
     --------------------------------------------------------------------- */

  /** A run of name characters, then a character that is not one. */
  lemma {:induction false} NameRunOf(name: String, x: String)
    requires forall i :: 0 <= i < |name| ==> IsNameChar(name[i])
    requires x != [] && !IsNameChar(x[0])
    ensures NameRun(name + x) == |name|
  {
    if name != [] {
      assert (name + x)[1..] == name[1..] + x;
      NameRunOf(name[1..], x);
    } else {
      assert name + x == x;
    }
  }

  /** CloseNonVoidAt once the name and the first `>` are known. */
  lemma CloseNonVoidAtNamed(name: String, inner: String, after: String)
    requires name != [] && IsAsciiLetter(name[0])
    requires NameRun(name + (inner + (">" + after))) == |name|
    requires FirstGt(inner + (">" + after)) == Some(|inner|)
    ensures CloseNonVoidAt("<" + name + (inner + (">" + after))) == SelfClosingTag(name, inner)
  {
    var s := "<" + name + (inner + (">" + after));
    TagSlices(name, inner, after);
    CloseNonVoidAtPieces(s, 1 + |name|, |inner|, name, inner);
  }

  /** The pieces of `<name inner>after` as slices. */
  lemma TagSlices(name: String, inner: String, after: String)
    ensures var s := "<" + name + (inner + (">" + after));
      && s[0] == '<' && (name != [] ==> s[1] == name[0])
      && s[1..] == name + (inner + (">" + after))
      && s[1 + |name|..] == inner + (">" + after)
      && s[1..1 + |name|] == name
      && s[1 + |name|..1 + |name| + |inner|] == inner
      && s[1 + |name| + |inner| + 1..] == after
      && s[..1 + |name| + |inner| + 1] == "<" + name + inner + ">"
      && (inner != [] ==> s[1 + |name|] == inner[0])
      && (inner == [] ==> s[1 + |name|] == '>')
  {
  }

  lemma CloseNonVoidAtPieces(s: String, n: nat, f: nat, name: String, inner: String)
    requires 2 <= n <= |s| && s[0] == '<' && IsAsciiLetter(s[1])
    requires n == 1 + NameRun(s[1..]) && FirstGt(s[n..]) == Some(f)
    requires name == s[1..n] && inner == s[n..n + f]
    ensures CloseNonVoidAt(s) == SelfClosingTag(name, inner)
  {
    CloseNamedPieces(s, n, f, name, inner);
  }

  lemma CloseNamedPieces(s: String, n: nat, f: nat, name: String, inner: String)
    requires 1 <= n <= |s| && FirstGt(s[n..]) == Some(f)
    requires name == s[1..n] && inner == s[n..n + f]
    ensures CloseNamed(s, n) == SelfClosingTag(name, inner)
  {
  }

  /** SelfClosingTag on `mid/`, with mid empty or `\s`-led. */
  lemma SelfClosingTagOf(name: String, mid: String)
    requires mid == [] || IsSpace(mid[0])
    ensures SelfClosingTag(name, mid + "/") == Some(Hit(|name| + |mid| + 3, SelfClosingReplacement(name, mid)))
  {
    SlashAppended(name, mid);
  }

  lemma SlashAppended(name: String, mid: String)
    ensures var inner := mid + "/";
      && inner != [] && inner[|inner| - 1] == '/' && inner[..|inner| - 1] == mid
      && |name| + |inner| + 2 == |name| + |mid| + 3
      && (|inner| == 1 || inner[0] == mid[0])
  {
  }

  /** One step of the scan where the matcher hits. */
  lemma CloseNonVoidHit(s: String, h: Hit, rest: String)
    requires CloseNonVoidAt(s) == Some(h) && rest == s[h.len..]
    ensures CloseNonVoid(s) == h.out + CloseNonVoid(rest)
  {
  }

  lemma SelfClosedShape(name: String, mid: String, rest: String)
    ensures "<" + name + mid + "/>" + rest == "<" + name + ((mid + "/") + (">" + rest))
    ensures ("<" + name + ((mid + "/") + (">" + rest)))[|name| + |mid| + 3..] == rest
  {
  }

  /** `<name mid/>` with a letter-led name of `[a-zA-Z0-9-]` characters and
      mid empty or `\s`-led without `>` is replaced as the callback says. */
  lemma CloseNonVoidSelfClosed(name: String, mid: String, rest: String)
    requires name != [] && IsAsciiLetter(name[0])
    requires forall i :: 0 <= i < |name| ==> IsNameChar(name[i])
    requires '>' !in mid && (mid == [] || IsSpace(mid[0]))
    ensures CloseNonVoid("<" + name + mid + "/>" + rest) == SelfClosingReplacement(name, mid) + CloseNonVoid(rest)
  {
    var inner := mid + "/";
    assert '>' !in inner;
    assert inner[0] == '/' || IsSpace(inner[0]);
    NameRunOf(name, inner + (">" + rest));
    FirstGtAfter(inner, ">" + rest);
    CloseNonVoidAtNamed(name, inner, rest);
    SelfClosingTagOf(name, mid);
    SelfClosedShape(name, mid, rest);
    CloseNonVoidHit("<" + name + (inner + (">" + rest)), Hit(|name| + |mid| + 3, SelfClosingReplacement(name, mid)), rest);
  }

  /** A non-void `<name mid/>` gets its closing tag. */
  lemma CloseNonVoidExpands(name: String, mid: String, rest: String)
    requires name != [] && IsAsciiLetter(name[0])
    requires forall i :: 0 <= i < |name| ==> IsNameChar(name[i])
    requires '>' !in mid && (mid == [] || IsSpace(mid[0]))
    requires !IsVoidName(LowerString(name))
    ensures CloseNonVoid("<" + name + mid + "/>" + rest) == "<" + name + mid + "></" + name + ">" + CloseNonVoid(rest)
  {
    CloseNonVoidSelfClosed(name, mid, rest);
  }

  /** A self-closed void tag, in any case, is kept. */
  lemma CloseNonVoidKeepsVoid(name: String, mid: String, rest: String)
    requires name != [] && IsAsciiLetter(name[0])
    requires forall i :: 0 <= i < |name| ==> IsNameChar(name[i])
    requires '>' !in mid && (mid == [] || IsSpace(mid[0]))
    requires IsVoidName(LowerString(name))
    ensures CloseNonVoid("<" + name + mid + "/>" + rest) == "<" + name + mid + "/>" + CloseNonVoid(rest)
  {
    CloseNonVoidSelfClosed(name, mid, rest);
  }

  /* ---------------------------------------------------------------------
     Text without `<` passes through every scan unchanged.
     --------------------------------------------------------------------- */

  lemma UnconsAppend(a: String, b: String)
    requires a != [] && '<' !in a
    ensures (a + b)[0] == a[0] && (a + b)[1..] == a[1..] + b && '<' !in a[1..]
  {
    assert forall c :: c in a[1..] ==> c in a;
  }

  lemma ConsAppend(a: String, r: String)
    requires a != []
    ensures [a[0]] + (a[1..] + r) == a + r
  {
  }

  lemma CollapsePairedMiss(s: String)
    requires s != [] && s[0] != '<'
    ensures CollapsePaired(s) == [s[0]] + CollapsePaired(s[1..])
  {
    assert CollapsePairedAt(s).None?;
  }

  lemma {:induction false} CollapsePairedSkip(a: String, b: String)
    requires '<' !in a
    ensures CollapsePaired(a + b) == a + CollapsePaired(b)
  {
    if a != [] {
      var s := a + b;
      UnconsAppend(a, b);
      CollapsePairedMiss(s);
      CollapsePairedSkip(a[1..], b);
      ConsAppend(a, CollapsePaired(b));
    } else {
      assert a + b == b;
    }
  }

  lemma NormalizeMiss(s: String)
    requires s != [] && s[0] != '<'
    ensures Normalize(s) == [s[0]] + Normalize(s[1..])
  {
    assert NormalizeAt(s).None?;
  }

  lemma {:induction false} NormalizeSkip(a: String, b: String)
    requires '<' !in a
    ensures Normalize(a + b) == a + Normalize(b)
  {
    if a != [] {
      var s := a + b;
      UnconsAppend(a, b);
      NormalizeMiss(s);
      NormalizeSkip(a[1..], b);
      ConsAppend(a, Normalize(b));
    } else {
      assert a + b == b;
    }
  }

  lemma CloseNonVoidMiss(s: String)
    requires s != [] && s[0] != '<'
    ensures CloseNonVoid(s) == [s[0]] + CloseNonVoid(s[1..])
  {
    assert CloseNonVoidAt(s).None?;
  }

  lemma {:induction false} CloseNonVoidSkip(a: String, b: String)
    requires '<' !in a
    ensures CloseNonVoid(a + b) == a + CloseNonVoid(b)
  {
    if a != [] {
      var s := a + b;
      UnconsAppend(a, b);
      CloseNonVoidMiss(s);
      CloseNonVoidSkip(a[1..], b);
      ConsAppend(a, CloseNonVoid(b));
    } else {
      assert a + b == b;
    }
  }

  lemma {:induction false} FirstGtSome(x: String)
    requires FirstGt(x).Some?
    ensures x[FirstGt(x).value] == '>' && '>' !in x[..FirstGt(x).value]
  {
    if x[0] != '>' {
      FirstGtSome(x[1..]);
      assert x[..FirstGt(x).value] == [x[0]] + x[1..][..FirstGt(x[1..]).value];
    }
  }

  /* ---------------------------------------------------------------------
     Text the passes have nothing to do in: no `<` starts a void element
     name, and no `>` follows a `/`.
     --------------------------------------------------------------------- */

  /** No `<` of `s` is followed by a void element name, in any case. */
  predicate NoVoidTag(s: String)
  {
    forall i, e :: 0 <= i < |s| && s[i] == '<' && e in VoidNames ==> !StartsIgnoringCase(s[i + 1..], e)
  }

  /** `s` holds no `/>`. */
  predicate NoSelfClosing(s: String)
  {
    forall i :: 0 < i < |s| && s[i] == '>' ==> s[i - 1] != '/'
  }

  lemma {:induction false} FirstVoidPrefixNone(x: String, names: seq<String>)
    requires forall e :: e in names ==> !StartsIgnoringCase(x, e)
    ensures FirstVoidPrefix(x, names).None?
    decreases |names|
  {
    if names != [] {
      assert forall e :: e in names[1..] ==> e in names;
      FirstVoidPrefixNone(x, names[1..]);
    }
  }

  /** The property survives dropping the first character. */
  lemma NoVoidTagTail(s: String)
    requires s != [] && NoVoidTag(s)
    ensures NoVoidTag(s[1..])
  {
    forall i, e | 0 <= i < |s[1..]| && s[1..][i] == '<' && e in VoidNames
      ensures !StartsIgnoringCase(s[1..][i + 1..], e)
    {
      assert s[1..][i + 1..] == s[i + 2..];
      assert s[i + 1] == '<';
    }
  }

  /** No void name starts after a leading `<`. */
  lemma NoVoidTagHead(s: String)
    requires s != [] && s[0] == '<' && NoVoidTag(s)
    ensures FirstVoidPrefix(s[1..], VoidNames).None?
  {
    forall e | e in VoidNames ensures !StartsIgnoringCase(s[1..], e) {
      assert s[0 + 1..] == s[1..];
    }
    FirstVoidPrefixNone(s[1..], VoidNames);
  }

  /** A void name cannot run across a `>`. */
  lemma NoVoidTagAppend(a: String, b: String)
    requires NoVoidTag(a) && NoVoidTag(b)
    requires '<' !in a || a[|a| - 1] == '>'
    ensures NoVoidTag(a + b)
  {
    var s := a + b;
    forall i, e | 0 <= i < |s| && s[i] == '<' && e in VoidNames ensures !StartsIgnoringCase(s[i + 1..], e) {
      if i >= |a| {
        assert s[i + 1..] == b[i - |a| + 1..];
        assert b[i - |a|] == '<';
      } else {
        assert a[i] == '<';
        assert s[i + 1..] == a[i + 1..] + b;
        assert a[i + 1..] != [] && a[i + 1..][|a[i + 1..]| - 1] == '>';
        if StartsIgnoringCase(s[i + 1..], e) {
          StartsAcross(a[i + 1..], b, e);
        }
      }
    }
  }

  /** A void name at the start of x + y, where x ends in `>`, lies
      within x. */
  lemma StartsAcross(x: String, y: String, e: String)
    requires e in VoidNames && x != [] && x[|x| - 1] == '>'
    requires StartsIgnoringCase(x + y, e)
    ensures StartsIgnoringCase(x, e)
  {
    var m := |x| - 1;
    if |e| > |x| {
      var p := (x + y)[..|e|];
      assert p[m] == '>';
      assert Lower(p[m]) == Lower(e[m]);
      VoidNamesLower(e, m);
      assert false;
    }
    assert (x + y)[..|e|] == x[..|e|];
  }

  /** A `/>` cannot run across the join when the first part does not end in `/`. */
  lemma NoSelfClosingAppend(a: String, b: String)
    requires NoSelfClosing(a) && NoSelfClosing(b)
    requires a == [] || a[|a| - 1] != '/'
    ensures NoSelfClosing(a + b)
  {
    var s := a + b;
    forall i | 0 < i < |s| && s[i] == '>' ensures s[i - 1] != '/' {
      if i > |a| {
        assert b[i - |a|] == '>';
      } else if i < |a| {
        assert a[i] == '>';
      }
    }
  }

  /** _normalizeVoidElements copies text without void start tags unchanged. */
  lemma {:induction false} NormalizePlain(s: String)
    requires NoVoidTag(s)
    ensures Normalize(s) == s
    decreases |s|
  {
    if s != [] {
      if s[0] == '<' {
        NoVoidTagHead(s);
      }
      assert NormalizeAt(s).None?;
      NoVoidTagTail(s);
      NormalizePlain(s[1..]);
      assert s == [s[0]] + s[1..];
    }
  }

  /** The first pass copies text without void start tags unchanged. */
  lemma {:induction false} CollapsePlain(s: String)
    requires NoVoidTag(s)
    ensures CollapsePaired(s) == s
    decreases |s|
  {
    if s != [] {
      if s[0] == '<' {
        NoVoidTagHead(s);
      }
      assert CollapsePairedAt(s).None?;
      NoVoidTagTail(s);
      CollapsePlain(s[1..]);
      assert s == [s[0]] + s[1..];
    }
  }

  /** Every match of the third pass ends in `/>`. */
  lemma CloseNonVoidSlash(s: String) returns (k: nat)
    requires CloseNonVoidAt(s).Some?
    ensures 0 < k < |s| && s[k] == '>' && s[k - 1] == '/'
  {
    var n := 1 + NameRun(s[1..]);
    var f := FirstGt(s[n..]).value;
    FirstGtSome(s[n..]);
    var inner := s[n..n + f];
    assert inner != [] && inner[|inner| - 1] == '/';
    k := n + f;
    assert s[k] == s[n..][f];
    assert s[k - 1] == inner[|inner| - 1];
  }

  /** The property survives dropping the first character. */
  lemma NoSelfClosingTail(s: String)
    requires s != [] && NoSelfClosing(s)
    ensures NoSelfClosing(s[1..])
  {
    forall i | 0 < i < |s[1..]| && s[1..][i] == '>' ensures s[1..][i - 1] != '/' {
      assert s[i + 1] == '>';
    }
  }

  /** The third pass copies text without `/>` unchanged. */
  lemma {:induction false} CloseNonVoidPlain(s: String)
    requires NoSelfClosing(s)
    ensures CloseNonVoid(s) == s
    decreases |s|
  {
    if s != [] {
      if CloseNonVoidAt(s).Some? {
        var k := CloseNonVoidSlash(s);
        assert false;
      }
      NoSelfClosingTail(s);
      CloseNonVoidPlain(s[1..]);
      assert s == [s[0]] + s[1..];
    }
  }

  /** _convertSelfClosingTags leaves alone text that has neither a void
      start tag nor a self-closing tag. */
  lemma ConvertPlain(s: String)
    requires NoVoidTag(s) && NoSelfClosing(s)
    ensures ConvertTags(s) == s
  {
    CollapsePlain(s);
    NormalizePlain(s);
    CloseNonVoidPlain(s);
  }

  /** Text without a tag is left as it is by _convertSelfClosingTags. */
  lemma ConvertNoTag(s: String)
    requires '<' !in s
    ensures ConvertTags(s) == s
  {
    assert s + [] == s;
    CollapsePairedSkip(s, []);
    NormalizeSkip(s, []);
    CloseNonVoidSkip(s, []);
  }

  /* ---------------------------------------------------------------------
     The passes together.
     --------------------------------------------------------------------- */

  lemma VoidNamesLong(nm: String)
    requires nm in VoidNames
    ensures |nm| >= 2
  {
  }

  /** A string of lower-case letters is its own lower-case form. */
  lemma LowerStringOfLower(s: String)
    requires forall i :: 0 <= i < |s| ==> 'a' <= s[i] <= 'z'
    ensures LowerString(s) == s
  {
    assert forall i :: 0 <= i < |s| ==> LowerString(s)[i] == s[i];
  }

  /** A void name is its own lower-case form and a valid tag name. */
  lemma VoidNameChars(nm: String)
    requires IsVoidName(nm)
    ensures nm != [] && IsAsciiLetter(nm[0]) && LowerString(nm) == nm
    ensures forall i :: 0 <= i < |nm| ==> IsNameChar(nm[i])
  {
    InNamesIff(nm, VoidNames);
    forall i | 0 <= i < |nm|
      ensures 'a' <= nm[i] <= 'z'
    {
      VoidNamesLower(nm, i);
    }
    VoidNamesLong(nm);
    LowerStringOfLower(nm);
  }

  /** No closing tag can start an empty text. */
  lemma NothingClosed(name: String)
    ensures ClosingTag([], name).None? && !ClosedAhead([], name)
  {
  }

  /** The same self-closed tag seen by the second pass (attributes ending
      in `/` before the `>`) and by the third (`/>` after the attributes). */
  lemma SelfClosedForms(nm: String, attrs: String)
    requires attrs != []
    ensures SelfClosed(nm, attrs) == "<" + nm + (attrs + " /") + ">" + []
    ensures SelfClosed(nm, attrs) == "<" + nm + (attrs + " ") + "/>" + []
    ensures (attrs + " /")[0] == attrs[0] && (attrs + " ")[0] == attrs[0]
    ensures EndsWithSlash(attrs + " /")
  {
    assert TrimEnd(attrs + " /") == attrs + " /";
  }

  lemma AppendedNoAngle(attrs: String)
    requires '>' !in attrs && '<' !in attrs
    ensures '>' !in attrs + " /" && '>' !in attrs + " " && '<' !in attrs + " /"
  {
  }

  lemma EmptyScans()
    ensures CollapsePaired([]) == [] && Normalize([]) == [] && CloseNonVoid([]) == []
  {
  }

  /** The second pass keeps a void tag that is already self-closed. */
  lemma NormalizeKeepsSelfClosedVoid(nm: String, attrs: String)
    requires IsVoidName(nm) && attrs != [] && IsSpace(attrs[0]) && '>' !in attrs && '<' !in attrs
    ensures Normalize(SelfClosed(nm, attrs)) == SelfClosed(nm, attrs)
  {
    SelfClosedForms(nm, attrs);
    AppendedNoAngle(attrs);
    NothingClosed(nm);
    EmptyScans();
    NormalizeKeepsSelfClosed(nm, attrs + " /", []);
  }

  /** The third pass keeps a void tag that is already self-closed. */
  lemma CloseNonVoidKeepsSelfClosedVoid(nm: String, attrs: String)
    requires IsVoidName(nm) && attrs != [] && IsSpace(attrs[0]) && '>' !in attrs && '<' !in attrs
    ensures CloseNonVoid(SelfClosed(nm, attrs)) == SelfClosed(nm, attrs)
  {
    SelfClosedForms(nm, attrs);
    AppendedNoAngle(attrs);
    VoidNameChars(nm);
    EmptyScans();
    CloseNonVoidKeepsVoid(nm, attrs + " ", []);
  }

  lemma CollapsePairedNoTag(t: String)
    requires '<' !in t
    ensures CollapsePaired(t) == t
  {
    assert t + [] == t;
    CollapsePairedSkip(t, []);
  }

  lemma CollapsePairedNoHit(s: String)
    requires s != [] && CollapsePairedAt(s).None?
    ensures CollapsePaired(s) == [s[0]] + CollapsePaired(s[1..])
  {
  }

  lemma CollapseClosedNone(name: String, attrs: String, after: String)
    requires ClosingTag(after, name).None?
    ensures CollapseClosed(name, attrs, after).None?
  {
  }

  /** The text of a start tag after its `<`. */
  lemma StartTagShape(nm: String, attrs: String)
    requires forall i :: 0 <= i < |nm| ==> IsNameChar(nm[i])
    requires '<' !in attrs
    ensures var s := "<" + nm + attrs + ">";
      && s == "<" + nm + (attrs + (">" + []))
      && s == [s[0]] + s[1..]
      && '<' !in s[1..]
  {
    var s := "<" + nm + attrs + ">";
    assert s[1..] == nm + attrs + ">";
    forall i | 0 <= i < |s[1..]|
      ensures s[1..][i] != '<'
    {
      if i < |nm| {
        assert s[1..][i] == nm[i];
      } else if i < |nm| + |attrs| {
        assert s[1..][i] == attrs[i - |nm|];
      }
    }
  }

  /** `<nm attrs>` with no closing tag after it: the first pass keeps it. */
  lemma CollapseKeepsUnclosed(nm: String, attrs: String)
    requires IsVoidName(nm) && '>' !in attrs && '<' !in attrs && (attrs == [] || IsSpace(attrs[0]))
    ensures CollapsePaired("<" + nm + attrs + ">") == "<" + nm + attrs + ">"
  {
    var s := "<" + nm + attrs + ">";
    VoidNameChars(nm);
    StartTagShape(nm, attrs);
    CollapseVoidHit(nm, attrs, []);
    NothingClosed(nm);
    CollapseClosedNone(nm, attrs, []);
    CollapsePairedNoHit(s);
    CollapsePairedNoTag(s[1..]);
  }

  /** A void start tag that is not self-closed and stands alone comes out
      of _convertSelfClosingTags as `<nm attrs />`. */
  lemma ConvertVoidStartTag(nm: String, attrs: String)
    requires IsVoidName(nm) && attrs != [] && IsSpace(attrs[0])
    requires '>' !in attrs && '<' !in attrs && !EndsWithSlash(attrs)
    ensures ConvertTags("<" + nm + attrs + ">") == SelfClosed(nm, attrs)
  {
    CollapseKeepsUnclosed(nm, attrs);
    NormalizeVoidStartTag(nm, attrs);
    CloseNonVoidKeepsSelfClosedVoid(nm, attrs);
  }

  /** The second pass on a void start tag standing alone. */
  lemma NormalizeVoidStartTag(nm: String, attrs: String)
    requires IsVoidName(nm) && attrs != [] && IsSpace(attrs[0])
    requires '>' !in attrs && !EndsWithSlash(attrs)
    ensures Normalize("<" + nm + attrs + ">") == SelfClosed(nm, attrs)
  {
    NothingClosed(nm);
    EmptyScans();
    AppendEmpty("<" + nm + attrs + ">");
    AppendEmpty(SelfClosed(nm, attrs));
    NormalizeSelfCloses(nm, attrs, []);
  }

  lemma AppendEmpty(x: String)
    ensures x + [] == x
  {
  }

  /** _convertSelfClosingTags leaves a self-closed void tag as it is. */
  lemma ConvertKeepsSelfClosedVoid(nm: String, attrs: String)
    requires IsVoidName(nm) && attrs != [] && IsSpace(attrs[0]) && '>' !in attrs && '<' !in attrs
    ensures ConvertTags(SelfClosed(nm, attrs)) == SelfClosed(nm, attrs)
  {
    SelfClosedForms(nm, attrs);
    AppendedNoAngle(attrs);
    AppendEmpty("<" + nm + (attrs + " /") + ">");
    CollapseKeepsUnclosed(nm, attrs + " /");
    NormalizeKeepsSelfClosedVoid(nm, attrs);
    CloseNonVoidKeepsSelfClosedVoid(nm, attrs);
  }

  /** The attributes of the thumbnail example of the Inky documentation,
      ` src="https://placehold.it/200x200" class="thumbnail"`. */
  const ThumbnailAttrs: String :=
    " src=\"" + "https://placehold.it/200x200" + "\" class=\"" + "thumbnail" + "\""

  lemma ThumbnailAttrsEnds()
    ensures ThumbnailAttrs != [] && IsSpace(ThumbnailAttrs[0]) && !EndsWithSlash(ThumbnailAttrs)
  {
    assert ThumbnailAttrs[|ThumbnailAttrs| - 1] == '"';
    assert TrimEnd(ThumbnailAttrs) == ThumbnailAttrs;
  }

  lemma ThumbnailAttrsNoGt()
    ensures '>' !in ThumbnailAttrs
  {
  }

  lemma ThumbnailAttrsNoLt()
    ensures '<' !in ThumbnailAttrs
  {
  }

  /** The thumbnail image tag in self-closed form. */
  lemma ImgIsVoid()
    ensures IsVoidName("img")
  {
    assert VoidNames[6] == "img";
    InNamesIff("img", VoidNames);
  }

  lemma ThumbnailSelfClosed()
    ensures IsVoidName("img")
    ensures SelfClosed("img", ThumbnailAttrs) == "<img" + ThumbnailAttrs + " />"
    ensures "<" + "img" + ThumbnailAttrs + ">" == "<img" + ThumbnailAttrs + ">"
  {
    ImgIsVoid();
    assert "<" + "img" == "<img";
  }

  lemma ThumbnailNormalized()
    ensures Normalize("<img" + ThumbnailAttrs + ">") == "<img" + ThumbnailAttrs + " />"
  {
    ThumbnailSelfClosed();
    ThumbnailAttrsEnds();
    ThumbnailAttrsNoGt();
    NormalizeVoidStartTag("img", ThumbnailAttrs);
  }

  lemma ThumbnailKept()
    ensures ConvertTags("<img" + ThumbnailAttrs + " />") == "<img" + ThumbnailAttrs + " />"
  {
    ThumbnailSelfClosed();
    ThumbnailAttrsEnds();
    ThumbnailAttrsNoGt();
    ThumbnailAttrsNoLt();
    ConvertKeepsSelfClosedVoid("img", ThumbnailAttrs);
  }

  /** The thumbnail example: the image tag is made self-closing before
      parsing, and _convertSelfClosingTags keeps it so. */
  lemma ThumbnailExample()
    ensures Normalize("<img" + ThumbnailAttrs + ">") == "<img" + ThumbnailAttrs + " />"
    ensures ConvertTags("<img" + ThumbnailAttrs + " />") == "<img" + ThumbnailAttrs + " />"
  {
    ThumbnailNormalized();
    ThumbnailKept();
  }
}
