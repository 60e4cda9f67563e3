/** Applying _normalizeVoidElements twice gives what applying it once
    gives.  The argument: a rewrite only inserts ` /` before the `>` of a
    match, so every decision the scan makes on the output (which name
    starts a tag, where the first `>` is, whether a closing tag follows)
    is the decision it made on the input, and every match it finds in the
    output already ends in `/`. */
module VoidIdempotence {
  import opened TextUtil
  import opened VoidTags

  // ---------------------------------------------------------------------
  // Words and the names a text starts with

  /** `c` is an ASCII letter of either case. */
  predicate Letter(c: char)
  {
    'a' <= Lower(c) <= 'z'
  }

  /** Every character of `w` is a letter. */
  predicate Word(w: String)
  {
    forall i :: 0 <= i < |w| ==> Letter(w[i])
  }

  /** `x` and `y` start with the same words, ignoring case. */
  ghost predicate SameStarts(x: String, y: String)
  {
    forall w :: Word(w) ==> (StartsIgnoringCase(x, w) <==> StartsIgnoringCase(y, w))
  }

  lemma SpaceNotLetter(c: char)
    ensures Letter(c) ==> c != '<' && c != '>' && c != '/' && !IsSpace(c)
  {
  }

  lemma WordNoAngle(w: String)
    requires Word(w)
    ensures '<' !in w && '>' !in w
  {
    forall i | 0 <= i < |w|
      ensures w[i] != '<' && w[i] != '>'
    {
      SpaceNotLetter(w[i]);
    }
  }

  lemma VoidWord(e: String)
    requires e in VoidNames
    ensures e != [] && Word(e)
  {
    VoidNamesLong(e);
    forall i | 0 <= i < |e|
      ensures Letter(e[i])
    {
      VoidNamesLower(e, i);
    }
  }

  lemma {:induction false} FirstVoidPrefixIn(s: String, names: seq<String>)
    ensures FirstVoidPrefix(s, names).Some? ==> FirstVoidPrefix(s, names).value in names
  {
    if names != [] && !StartsIgnoringCase(s, names[0]) {
      FirstVoidPrefixIn(s, names[1..]);
    }
  }

  /** Texts that start with the same names pick the same first name. */
  lemma {:induction false} PrefixCong(x: String, y: String, names: seq<String>)
    requires forall e :: e in names ==> (StartsIgnoringCase(x, e) <==> StartsIgnoringCase(y, e))
    ensures FirstVoidPrefix(x, names) == FirstVoidPrefix(y, names)
  {
    if names != [] {
      PrefixCong(x, y, names[1..]);
    }
  }

  /** A text starting with a non-letter starts with no non-empty word. */
  lemma {:induction false} PrefixNone(x: String, names: seq<String>)
    requires x != [] && !Letter(x[0])
    requires forall e :: e in names ==> e != [] && Word(e)
    ensures FirstVoidPrefix(x, names) == None
  {
    if names != [] {
      assert names[0] in names;
      if |names[0]| <= |x| {
        assert x[..|names[0]|][0] == x[0];
      }
      assert forall e :: e in names[1..] ==> e in names;
      PrefixNone(x, names[1..]);
    }
  }

  lemma VoidPrefixSame(x: String, y: String)
    requires SameStarts(x, y)
    ensures FirstVoidPrefix(x, VoidNames) == FirstVoidPrefix(y, VoidNames)
  {
    forall e | e in VoidNames
      ensures StartsIgnoringCase(x, e) <==> StartsIgnoringCase(y, e)
    {
      VoidWord(e);
    }
    PrefixCong(x, y, VoidNames);
  }

  lemma VoidPrefixNone(x: String)
    requires x != [] && !Letter(x[0])
    ensures FirstVoidPrefix(x, VoidNames) == None
  {
    forall e | e in VoidNames
      ensures e != [] && Word(e)
    {
      VoidWord(e);
    }
    PrefixNone(x, VoidNames);
  }

  /** The name a text starts with is made of letters; the text's own
      characters there are letters too. */
  lemma NameWord(t: String, nm: String)
    requires FirstVoidPrefix(t, VoidNames) == Some(nm)
    ensures 1 <= |nm| <= |t| && Word(t[..|nm|])
  {
    NameIsWord(t, nm);
    WordStart(t, nm);
  }

  lemma NameIsWord(t: String, nm: String)
    requires FirstVoidPrefix(t, VoidNames) == Some(nm)
    ensures nm != [] && Word(nm)
  {
    FirstVoidPrefixIn(t, VoidNames);
    VoidWord(nm);
  }

  lemma WordStart(t: String, w: String)
    requires StartsIgnoringCase(t, w) && Word(w)
    ensures Word(t[..|w|])
  {
    forall i | 0 <= i < |w|
      ensures Letter(t[..|w|][i])
    {
      assert Lower(t[..|w|][i]) == Lower(w[i]);
    }
  }

  /** Texts that agree up to and including a non-letter start with the
      same words. */
  lemma StartsBlocked(x: String, y: String, k: nat)
    requires k < |x| && k < |y| && x[..k + 1] == y[..k + 1] && !Letter(x[k])
    ensures SameStarts(x, y)
  {
    assert x[k] == x[..k + 1][k] == y[..k + 1][k] == y[k];
    forall w | Word(w)
      ensures StartsIgnoringCase(x, w) <==> StartsIgnoringCase(y, w)
    {
      if |w| <= k {
        assert x[..|w|] == x[..k + 1][..|w|];
        assert y[..|w|] == y[..k + 1][..|w|];
      } else if |w| <= |x| && |w| <= |y| {
        assert x[..|w|][k] == x[k];
        assert y[..|w|][k] == y[k];
        assert Letter(w[k]);
      }
    }
  }

  lemma StartsCons(c: char, a: String, w: String)
    requires w != []
    ensures StartsIgnoringCase([c] + a, w)
        <==> Lower(c) == Lower(w[0]) && StartsIgnoringCase(a, w[1..])
  {
    var s := [c] + a;
    if |w| <= |s| {
      assert s[..|w|] == [c] + a[..|w| - 1];
      forall i | 1 <= i < |w|
        ensures s[..|w|][i] == a[..|w[1..]|][i - 1] && w[i] == w[1..][i - 1]
      {
      }
    }
  }

  /** One more common first character keeps the same starting words. */
  lemma ConsStarts(c: char, a: String, b: String)
    requires SameStarts(a, b)
    ensures SameStarts([c] + a, [c] + b)
  {
    forall w | Word(w)
      ensures StartsIgnoringCase([c] + a, w) <==> StartsIgnoringCase([c] + b, w)
    {
      if w != [] {
        StartsCons(c, a, w);
        StartsCons(c, b, w);
        assert Word(w[1..]) by {
          forall i | 0 <= i < |w[1..]|
            ensures Letter(w[1..][i])
          {
            assert w[1..][i] == w[i + 1];
          }
        }
      }
    }
  }

  // ---------------------------------------------------------------------
  // The first `>`

  lemma {:induction false} FirstGtNone(x: String)
    requires FirstGt(x).None?
    ensures '>' !in x
  {
    if x != [] {
      FirstGtNone(x[1..]);
      assert x == [x[0]] + x[1..];
    }
  }

  /** With no `>` there is no first `>`. */
  lemma NoGtNone(x: String)
    requires '>' !in x
    ensures FirstGt(x) == None
  {
    if FirstGt(x).Some? {
      FirstGtSome(x);
    }
  }

  // ---------------------------------------------------------------------
  // One step of the scan

  /** A match found once the name is known keeps the first two characters. */
  lemma NamedOut(s: String, n: nat)
    requires 1 <= n <= |s| && s[0] == '<' && NormalizeNamed(s, n).Some?
    ensures var out := NormalizeNamed(s, n).value.out;
      |out| >= 2 && out[0] == s[0] && out[1] == s[1]
  {
    var f := FirstGt(s[n..]).value;
    var gt := n + f;
    if !EndsWithSlash(s[n..gt]) {
      assert SelfClosed(s[1..n], s[n..gt]) == [s[0]] + s[1..gt] + " />" by {
        assert s[1..n] + s[n..gt] == s[1..gt];
      }
    }
  }

  /** Where the scan matches, the input starts with `<` and a name. */
  lemma AtHit(x: String) returns (n: nat)
    requires NormalizeAt(x).Some?
    ensures 1 <= n < |x| && x[0] == '<' && NormalizeAt(x) == NormalizeNamed(x, n)
    ensures FirstVoidPrefix(x[1..], VoidNames).Some?
    ensures n == 1 + |FirstVoidPrefix(x[1..], VoidNames).value|
  {
    n := 1 + |FirstVoidPrefix(x[1..], VoidNames).value|;
  }

  /** The name after the `<` is made of letters. */
  lemma NameSlice(x: String, nm: String)
    requires x != [] && FirstVoidPrefix(x[1..], VoidNames) == Some(nm)
    ensures 2 <= 1 + |nm| <= |x| && Word(x[1..1 + |nm|])
  {
    NameWord(x[1..], nm);
    assert x[1..][..|nm|] == x[1..1 + |nm|];
  }

  /** A match takes at least two characters. */
  lemma AtLong(x: String)
    ensures NormalizeAt(x).Some? ==> |x| >= 2
  {
    if NormalizeAt(x).Some? {
      var n := AtHit(x);
    }
  }

  /** The scan starts with the first character of its input, and leaves a
      one-character input alone. */
  lemma NormalizeHead(x: String)
    requires x != []
    ensures Normalize(x) != [] && Normalize(x)[0] == x[0]
  {
    if NormalizeAt(x).Some? {
      var n := AtHit(x);
      NamedOut(x, n);
    }
  }

  lemma NormalizeSingle(x: String)
    requires |x| == 1
    ensures Normalize(x) == x
  {
    AtLong(x);
    assert x[1..] == [];
  }

  /** The scan keeps the second character too. */
  lemma NormalizeSecond(x: String)
    requires |x| >= 2
    ensures |Normalize(x)| >= 2 && Normalize(x)[1] == x[1]
  {
    if NormalizeAt(x).Some? {
      var n := AtHit(x);
      NamedOut(x, n);
    } else {
      NormalizeHead(x[1..]);
    }
  }

  /** The attributes of a match as the scan leaves them: ending in `/`. */
  function Slashed(attrs: String): (r: String)
    ensures EndsWithSlash(r)
    ensures attrs != [] ==> r != [] && r[0] == attrs[0]
    ensures '>' !in attrs ==> '>' !in r
  {
    if EndsWithSlash(attrs) then attrs
    else SlashEnds(attrs); attrs + " /"
  }

  lemma SlashEnds(attrs: String)
    ensures EndsWithSlash(attrs + " /")
  {
    assert TrimEnd(attrs + " /") == attrs + " /";
  }

  /** A match is a void start tag not followed by its closing tag; it is
      replaced by the same tag with its attributes ending in `/`. */
  lemma HitShape(s: String) returns (n: nat, name: String, attrs: String, rest: String)
    requires NormalizeAt(s).Some?
    ensures s == "<" + name + (attrs + (">" + rest))
    ensures name != [] && Word(name)
    ensures attrs != [] && IsSpace(attrs[0]) && '>' !in attrs
    ensures !ClosedAhead(rest, name)
    ensures NormalizeAt(s).value == Hit(|name| + |attrs| + 2, "<" + name + Slashed(attrs) + ">")
    ensures FirstVoidPrefix(s[1..], VoidNames).Some?
    ensures n == 1 + |FirstVoidPrefix(s[1..], VoidNames).value| == 1 + |name|
  {
    n := AtHit(s);
    NameSlice(s, FirstVoidPrefix(s[1..], VoidNames).value);
    name, attrs, rest := NamedShape(s, n);
  }

  /** The same, once the name `s[1..n]` is known. */
  lemma NamedShape(s: String, n: nat) returns (name: String, attrs: String, rest: String)
    requires 1 <= n < |s| && s[0] == '<' && NormalizeNamed(s, n).Some?
    ensures name == s[1..n]
    ensures s == "<" + name + (attrs + (">" + rest))
    ensures attrs != [] && IsSpace(attrs[0]) && '>' !in attrs
    ensures !ClosedAhead(rest, name)
    ensures NormalizeNamed(s, n).value == Hit(|name| + |attrs| + 2, "<" + name + Slashed(attrs) + ">")
  {
    name := s[1..n];
    var f := FirstGt(s[n..]).value;
    var gt := n + f;
    attrs := s[n..gt];
    rest := s[gt + 1..];
    FirstGtSome(s[n..]);
    assert s[n..][..f] == attrs && s[n..][f] == s[gt];
    NamedValue(s, n, gt);
    NamedSplit(s, n, gt, name, attrs, rest);
  }

  lemma NamedSplit(s: String, n: nat, gt: nat, name: String, attrs: String, rest: String)
    requires 1 <= n <= gt < |s| && s[0] == '<' && s[gt] == '>'
    requires name == s[1..n] && attrs == s[n..gt] && rest == s[gt + 1..]
    ensures s == "<" + name + (attrs + (">" + rest))
  {
    assert s[gt..] == [s[gt]] + rest;
    assert s[n..] == attrs + s[gt..];
    assert s[1..] == name + s[n..];
    assert s == [s[0]] + s[1..];
  }

  lemma NamedValue(s: String, n: nat, gt: nat)
    requires 1 <= n < gt < |s| && s[0] == '<' && IsSpace(s[n]) && FirstGt(s[n..]) == Some(gt - n)
    requires s[gt] == '>' && !ClosedAhead(s[gt + 1..], s[1..n])
    ensures NormalizeNamed(s, n)
         == Some(Hit(gt + 1, "<" + s[1..n] + Slashed(s[n..gt]) + ">"))
  {
    NormalizeNamedAt(s, n, gt, s[1..n], s[n..gt], s[gt + 1..], s[..gt + 1]);
    OutForm(s, n, gt);
  }

  /** Both replacements of a match are the tag with its attributes slashed. */
  lemma OutForm(s: String, n: nat, gt: nat)
    requires 1 <= n < gt < |s| && s[0] == '<' && s[gt] == '>'
    ensures (if EndsWithSlash(s[n..gt]) then s[..gt + 1] else SelfClosed(s[1..n], s[n..gt]))
         == "<" + s[1..n] + Slashed(s[n..gt]) + ">"
  {
    if EndsWithSlash(s[n..gt]) {
      assert s[..gt + 1] == [s[0]] + s[1..n] + s[n..gt] + [s[gt]];
    } else {
      assert SelfClosed(s[1..n], s[n..gt]) == "<" + s[1..n] + (s[n..gt] + " /") + ">";
    }
  }

  // ---------------------------------------------------------------------
  // What the scan does around a `>`

  /** A match contains a `>`. */
  lemma HitHasGt(x: String)
    ensures NormalizeAt(x).Some? ==> '>' in x
  {
    if NormalizeAt(x).Some? {
      var n, name, attrs, rest := HitShape(x);
      assert x[1 + |name| + |attrs|] == '>' by {
        TagSlices(name, attrs, rest);
      }
    }
  }

  /** Text without `>` holds no match and is left alone. */
  lemma {:induction false} NormalizeNoGt(x: String)
    requires '>' !in x
    ensures Normalize(x) == x
    decreases |x|
  {
    if x != [] {
      HitHasGt(x);
      assert forall c :: c in x[1..] ==> c in x;
      NormalizeNoGt(x[1..]);
      assert x == [x[0]] + x[1..];
    }
  }

  /** Two ways of cutting one text at its first `>` are the same cut. */
  lemma SplitAtGt(a: String, r: String, b: String, r2: String)
    requires a + (">" + r) == b + (">" + r2) && '>' !in a && '>' !in b
    ensures a == b && r == r2
  {
    var c := a + (">" + r);
    assert c[|a|] == '>';
    assert c[|b|] == '>';
    assert forall i :: 0 <= i < |a| ==> c[i] == a[i];
    assert forall i :: 0 <= i < |b| ==> c[i] == b[i];
    assert |a| == |b|;
    assert a == c[..|a|] && b == c[..|b|];
    assert r == c[|a| + 1..] && r2 == c[|b| + 1..];
  }

  /** Scanning up to a `>`: whatever happens before it, the scan resumes
      right after it, and what it wrote before it has no `>`. */
  lemma {:induction false} GtSplit(s: String, k: nat) returns (x: String)
    requires k < |s| && s[k] == '>' && '>' !in s[..k]
    ensures Normalize(s) == x + (">" + Normalize(s[k + 1..])) && '>' !in x
    decreases k
  {
    if k == 0 {
      NormalizeMiss(s);
      x := [];
    } else if NormalizeAt(s).None? {
      var t := s[1..];
      assert t[k - 1] == '>' && t[..k - 1] == s[1..k] && t[k..] == s[k + 1..];
      assert forall c :: c in s[1..k] ==> c in s[..k];
      var x' := GtSplit(t, k - 1);
      x := GtMiss(s, t, x', Normalize(s[k + 1..]));
      assert '>' !in x by {
        assert s[0] in s[..k];
      }
    } else {
      x := GtHit(s, k);
    }
  }

  lemma GtMiss(s: String, t: String, x': String, g: String) returns (x: String)
    requires s != [] && NormalizeAt(s).None? && s[1..] == t
    requires Normalize(t) == x' + (">" + g)
    ensures Normalize(s) == x + (">" + g) && x == [s[0]] + x'
  {
    NormalizeCopy(s);
    x := [s[0]] + x';
  }

  lemma GtHit(s: String, k: nat) returns (x: String)
    requires k < |s| && s[k] == '>' && '>' !in s[..k] && NormalizeAt(s).Some?
    ensures Normalize(s) == x + (">" + Normalize(s[k + 1..])) && '>' !in x
  {
    var n, name, attrs, rest := HitShape(s);
    x := "<" + name + Slashed(attrs);
    HitGtAt(s, k, name, attrs, rest);
    TagNoGt(name, attrs);
    HitOut(s, NormalizeAt(s).value, k, x);
  }

  lemma HitOut(s: String, h: Hit, k: nat, x: String)
    requires NormalizeAt(s) == Some(h) && h.len == k + 1 && h.out == x + ">"
    ensures Normalize(s) == x + (">" + Normalize(s[k + 1..]))
  {
    NormalizeHit(s, h);
  }

  lemma TagNoGt(name: String, attrs: String)
    requires Word(name) && '>' !in attrs
    ensures '>' !in "<" + name + Slashed(attrs)
  {
    WordNoAngle(name);
  }

  /** The `>` of a match is the first `>` of the text. */
  lemma HitGtAt(s: String, k: nat, name: String, attrs: String, rest: String)
    requires k < |s| && s[k] == '>' && '>' !in s[..k]
    requires s == "<" + name + (attrs + (">" + rest)) && Word(name) && '>' !in attrs
    ensures k == |name| + |attrs| + 1 && s[k + 1..] == rest
  {
    WordNoAngle(name);
    assert s == ("<" + name + attrs) + (">" + rest);
    assert s[..k] + (">" + s[k + 1..]) == s;
    SplitAtGt(s[..k], s[k + 1..], "<" + name + attrs, rest);
  }

  /** Where the scan matches, it writes the replacement and goes on after it. */
  lemma NormalizeHit(s: String, h: Hit)
    requires NormalizeAt(s) == Some(h)
    ensures Normalize(s) == h.out + Normalize(s[h.len..])
  {
  }

  /** Where it does not, it copies one character. */
  lemma NormalizeCopy(s: String)
    requires s != [] && NormalizeAt(s).None?
    ensures Normalize(s) == [s[0]] + Normalize(s[1..])
  {
  }

  // ---------------------------------------------------------------------
  // What the scan keeps: starting names and closing tags

  /** The scan's output starts with the same words as its input. */
  lemma {:induction false} NormStarts(y: String)
    ensures SameStarts(Normalize(y), y)
    decreases |y|
  {
    if y == [] {
    } else if y[0] == '<' {
      NormalizeHead(y);
      assert Normalize(y)[..1] == y[..1];
      SpaceNotLetter('<');
      StartsBlocked(Normalize(y), y, 0);
    } else {
      NormalizeMiss(y);
      NormStarts(y[1..]);
      StartsStep(y, Normalize(y), Normalize(y[1..]));
    }
  }

  lemma StartsStep(y: String, ny: String, nt: String)
    requires y != [] && ny == [y[0]] + nt && SameStarts(nt, y[1..])
    ensures SameStarts(ny, y)
  {
    ConsStarts(y[0], nt, y[1..]);
    assert [y[0]] + y[1..] == y;
  }

  /** A closing tag's `</` is copied as it is. */
  lemma NormalizeCloseTag(s: String)
    requires |s| >= 2 && s[0] == '<' && s[1] == '/'
    ensures Normalize(s) == "</" + Normalize(s[2..])
  {
    CloseTagNoMatch(s);
    NormalizeCopy(s);
    CopyAfterFirst(s);
    TwoCopied(Normalize(s), Normalize(s[1..]), Normalize(s[2..]), s[0], s[1]);
  }

  lemma CopyAfterFirst(s: String)
    requires |s| >= 2 && s[1] != '<'
    ensures Normalize(s[1..]) == [s[1]] + Normalize(s[2..])
  {
    NormalizeMiss(s[1..]);
    assert s[1..][1..] == s[2..];
  }

  lemma TwoCopied(ns: String, nt: String, nu: String, c0: char, c1: char)
    requires ns == [c0] + nt && nt == [c1] + nu && c0 == '<' && c1 == '/'
    ensures ns == "</" + nu
  {
  }

  lemma CloseTagNoMatch(s: String)
    requires |s| >= 2 && s[0] == '<' && s[1] == '/'
    ensures NormalizeAt(s).None?
  {
    SpaceNotLetter('/');
    VoidPrefixNone(s[1..]);
  }

  /** A leading space does not change whether a closing tag follows. */
  lemma CloseCons(t: String, u: String, w: String)
    requires t != [] && IsSpace(t[0]) && t[1..] == u
    ensures ClosedAhead(t, w) <==> ClosedAhead(u, w)
  {
    var g := SpaceRun(u);
    assert SpaceRun(t) == 1 + g;
    if g + 2 <= |u| {
      assert t[g + 1] == u[g] && t[g + 2] == u[g + 1] && t[g + 3..] == u[g + 2..];
    }
  }

  lemma ClosedAt0(t: String, w: String)
    requires t != [] && !IsSpace(t[0])
    ensures ClosedAhead(t, w)
        <==> |t| >= 2 && t[0] == '<' && t[1] == '/' && StartsIgnoringCase(t[2..], w)
  {
    assert SpaceRun(t) == 0;
  }

  /** The scan keeps whether a closing tag of a given name comes next. */
  lemma {:induction false} ClosedKept(r: String, w: String)
    requires Word(w)
    ensures ClosedAhead(Normalize(r), w) <==> ClosedAhead(r, w)
    decreases |r|
  {
    if r == [] {
    } else if IsSpace(r[0]) {
      NormalizeMiss(r);
      ClosedKept(r[1..], w);
      ClosedStep(r, Normalize(r), Normalize(r[1..]), w);
    } else {
      ClosedNonSpace(r, w);
    }
  }

  lemma ClosedStep(r: String, nr: String, nt: String, w: String)
    requires r != [] && IsSpace(r[0]) && nr == [r[0]] + nt
    requires ClosedAhead(nt, w) <==> ClosedAhead(r[1..], w)
    ensures ClosedAhead(nr, w) <==> ClosedAhead(r, w)
  {
    CloseCons(nr, nt, w);
    CloseCons(r, r[1..], w);
  }

  lemma ClosedNonSpace(r: String, w: String)
    requires Word(w) && r != [] && !IsSpace(r[0])
    ensures ClosedAhead(Normalize(r), w) <==> ClosedAhead(r, w)
  {
    NormalizeHead(r);
    ClosedAt0(r, w);
    ClosedAt0(Normalize(r), w);
    if |r| >= 2 && r[0] == '<' && r[1] == '/' {
      NormalizeCloseTag(r);
      NormStarts(r[2..]);
      assert Normalize(r)[2..] == Normalize(r[2..]);
    } else if |r| >= 2 {
      NormalizeSecond(r);
    } else {
      NormalizeSingle(r);
    }
  }

  // ---------------------------------------------------------------------
  // The scan on its own output

  /** A tag `<name X>U` whose name is known: what the scan does with it. */
  lemma TagNamedAt(t: String, name: String, x: String, u: String)
    requires t == "<" + name + (x + (">" + u)) && x != [] && IsSpace(x[0]) && '>' !in x
    ensures NormalizeNamed(t, 1 + |name|)
         == if ClosedAhead(u, name) then None
            else Some(Hit(|name| + |x| + 2, "<" + name + Slashed(x) + ">"))
  {
    TagPieces(t, name, x, u);
    TagNamedParts(t, 1 + |name|, 1 + |name| + |x|, name, x, u);
  }

  /** The pieces of `<name X>U` as slices. */
  lemma TagPieces(t: String, name: String, x: String, u: String)
    requires t == "<" + name + (x + (">" + u)) && x != []
    ensures var n := 1 + |name|; var gt := n + |x|;
      gt < |t| && t[0] == '<' && t[gt] == '>'
      && name == t[1..n] && x == t[n..gt] && u == t[gt + 1..]
  {
    var n := 1 + |name|;
    var gt := n + |x|;
    assert t[1..] == name + (x + (">" + u));
    assert t[n..] == x + (">" + u);
    assert t[gt..] == ">" + u;
  }

  /** The same, with the pieces given as slices of the text. */
  lemma TagNamedParts(t: String, n: nat, gt: nat, name: String, x: String, u: String)
    requires 1 <= n < gt < |t| && t[0] == '<' && t[gt] == '>'
    requires name == t[1..n] && x == t[n..gt] && u == t[gt + 1..]
    requires x != [] && IsSpace(x[0]) && '>' !in x
    ensures NormalizeNamed(t, n)
         == if ClosedAhead(u, name) then None
            else Some(Hit(gt + 1, "<" + name + Slashed(x) + ">"))
  {
    assert t[n..] == x + t[gt..];
    FirstGtAfter(x, t[gt..]);
    NormalizeNamedAt(t, n, gt, name, x, u, t[..gt + 1]);
    OutForm(t, n, gt);
  }

  /** Once the name a text starts with is known, the scan goes on with it. */
  lemma AtNamedFrom(t: String, n: nat)
    requires t != [] && t[0] == '<' && FirstVoidPrefix(t[1..], VoidNames).Some?
    requires n == 1 + |FirstVoidPrefix(t[1..], VoidNames).value|
    ensures n <= |t| && NormalizeAt(t) == NormalizeNamed(t, n)
  {
  }

  lemma AtNoName(t: String)
    requires t != [] && (t[0] != '<' || FirstVoidPrefix(t[1..], VoidNames).None?)
    ensures NormalizeAt(t).None?
  {
  }

  lemma SlashedSlashed(x: String)
    requires EndsWithSlash(x)
    ensures Slashed(x) == x
  {
  }

  /** The output of a match, followed by anything the scan wrote after it,
      is matched again and kept as it is. */
  lemma HitKept(s: String)
    requires NormalizeAt(s).Some?
    ensures var h := NormalizeAt(s).value;
      NormalizeAt(h.out + Normalize(s[h.len..])) == Some(Hit(|h.out|, h.out))
  {
    var n, name, attrs, rest := HitShape(s);
    var h := NormalizeAt(s).value;
    var a2 := Slashed(attrs);
    var u := Normalize(rest);
    var t := "<" + name + (a2 + (">" + u));
    HitPieces(s, h, name, attrs, rest, a2, u, t);
    VoidPrefixSame(s[1..], t[1..]);
    AtNamedFrom(t, n);
    ClosedKept(rest, name);
    TagNamedAt(t, name, a2, u);
    SlashedSlashed(a2);
    HitFinal(NormalizeAt(t), NormalizeNamed(t, n), ClosedAhead(u, name), h.out, name, a2, Slashed(a2));
    assert t == h.out + Normalize(s[h.len..]);
  }

  lemma HitFinal(at: Option<Hit>, named: Option<Hit>, closed: bool, out: String, name: String, a2: String, slashed: String)
    requires at == named && named == if closed then None else Some(Hit(|name| + |a2| + 2, "<" + name + slashed + ">"))
    requires !closed && slashed == a2 && out == "<" + name + a2 + ">"
    ensures at == Some(Hit(|out|, out))
  {
  }

  lemma HitPieces(s: String, h: Hit, name: String, attrs: String, rest: String, a2: String, u: String, t: String)
    requires s == "<" + name + (attrs + (">" + rest)) && attrs != [] && IsSpace(attrs[0])
    requires a2 == Slashed(attrs) && t == "<" + name + (a2 + (">" + u))
    requires h == Hit(|name| + |attrs| + 2, "<" + name + a2 + ">")
    ensures s[h.len..] == rest && t == h.out + u && t != []
    ensures SameStarts(s[1..], t[1..])
  {
    assert s[h.len..] == rest by {
      assert s == ("<" + name + attrs + ">") + rest;
    }
    TagStarts(s, t, name, attrs, a2, rest, u);
  }

  /** Two tags with the same name and the same first attribute character
      start, after the `<`, with the same words. */
  lemma TagStarts(s: String, t: String, name: String, a: String, b: String, r1: String, r2: String)
    requires s == "<" + name + (a + (">" + r1)) && t == "<" + name + (b + (">" + r2))
    requires a != [] && b != [] && a[0] == b[0] && IsSpace(a[0])
    ensures SameStarts(s[1..], t[1..])
  {
    assert s[1..] == name + (a + (">" + r1));
    assert t[1..] == name + (b + (">" + r2));
    assert s[1..][..|name| + 1] == name + [a[0]];
    assert t[1..][..|name| + 1] == name + [b[0]];
    assert s[1..][|name|] == a[0];
    SpaceNotLetter(a[0]);
    StartsBlocked(s[1..], t[1..], |name|);
  }

  /** Where the scan copies a character, the same position of its output
      is not matched either. */
  lemma MissKept(s: String)
    requires s != [] && NormalizeAt(s).None?
    ensures NormalizeAt([s[0]] + Normalize(s[1..])).None?
  {
    var t := [s[0]] + Normalize(s[1..]);
    if s[0] != '<' {
      AtNoName(t);
    } else {
      NormStarts(s[1..]);
      assert t[1..] == Normalize(s[1..]);
      VoidPrefixSame(t[1..], s[1..]);
      if FirstVoidPrefix(s[1..], VoidNames).None? {
        AtNoName(t);
      } else {
        var nm := FirstVoidPrefix(s[1..], VoidNames).value;
        NameSlice(s, nm);
        AtNamedFrom(s, 1 + |nm|);
        AtNamedFrom(t, 1 + |nm|);
        MissNamed(s, t, 1 + |nm|);
      }
    }
  }

  lemma MissNamed(s: String, t: String, n: nat)
    requires 2 <= n <= |s| && s[0] == '<' && Word(s[1..n]) && NormalizeNamed(s, n).None?
    requires t == [s[0]] + Normalize(s[1..]) && n <= |t|
    ensures NormalizeNamed(t, n).None?
  {
    var name, z, nz := MissSplit(s, t, n);
    if z == [] {
      assert |t| == n;
    } else if !IsSpace(z[0]) {
      NormalizeHead(z);
      assert t[n] == nz[0];
    } else if FirstGt(z).None? {
      FirstGtNone(z);
      NormalizeNoGt(z);
      assert t == s;
    } else {
      MissClosed(s, t, n, name, z, nz);
    }
  }

  /** The output after a recognised name: the name, then the scan of what
      follows it. */
  lemma MissSplit(s: String, t: String, n: nat) returns (name: String, z: String, nz: String)
    requires 2 <= n <= |s| && Word(s[1..n]) && t == [s[0]] + Normalize(s[1..])
    ensures name == s[1..n] && z == s[n..] && nz == Normalize(z)
    ensures t == [s[0]] + (name + nz) && s == [s[0]] + (name + z)
  {
    name := s[1..n];
    z := s[n..];
    assert s[1..] == name + z;
    WordNoAngle(name);
    NormalizeSkip(name, z);
    nz := Normalize(z);
  }

  lemma MissClosed(s: String, t: String, n: nat, name: String, z: String, nz: String)
    requires 2 <= n < |s| && s[0] == '<' && Word(name) && NormalizeNamed(s, n).None?
    requires name == s[1..n] && z == s[n..] && nz == Normalize(z) && t == [s[0]] + (name + nz)
    requires IsSpace(z[0]) && FirstGt(z).Some?
    ensures NormalizeNamed(t, n).None?
  {
    var f := ClosedFromNone(s, n, name, z);
    var x, u := ClosedTail(z, nz, name, f);
    TagJoin(t, s[0], name, nz, x, u);
    ClosedTagNone(t, n, name, x, u);
  }

  /** A void start tag followed by its closing tag is no match. */
  lemma ClosedTagNone(t: String, n: nat, name: String, x: String, u: String)
    requires t == "<" + name + (x + (">" + u)) && n == 1 + |name|
    requires x != [] && IsSpace(x[0]) && '>' !in x && ClosedAhead(u, name)
    ensures n <= |t| && NormalizeNamed(t, n).None?
  {
    TagNamedAt(t, name, x, u);
    NoneFinal(NormalizeNamed(t, n), ClosedAhead(u, name), Hit(|name| + |x| + 2, "<" + name + Slashed(x) + ">"));
  }

  /** A recognised name followed by attributes that the scan did not
      match: its closing tag follows. */
  lemma ClosedFromNone(s: String, n: nat, name: String, z: String) returns (f: nat)
    requires 2 <= n < |s| && s[0] == '<' && NormalizeNamed(s, n).None?
    requires name == s[1..n] && z == s[n..] && IsSpace(z[0]) && FirstGt(z).Some?
    ensures f < |z| && z[f] == '>' && '>' !in z[..f] && ClosedAhead(z[f + 1..], name)
  {
    f := FirstGt(z).value;
    FirstGtSome(z);
    var gt := n + f;
    assert s[n..gt] == z[..f] && s[gt + 1..] == z[f + 1..] && s[gt] == z[f];
    NormalizeNamedAt(s, n, gt, name, z[..f], z[f + 1..], s[..gt + 1]);
  }

  /** Normalising the text after the name keeps its first `>` and the
      closing tag after it. */
  lemma ClosedTail(z: String, nz: String, name: String, f: nat) returns (x: String, u: String)
    requires Word(name) && nz == Normalize(z)
    requires f < |z| && z[f] == '>' && '>' !in z[..f] && ClosedAhead(z[f + 1..], name) && IsSpace(z[0])
    ensures nz == x + (">" + u) && x != [] && IsSpace(x[0]) && '>' !in x && ClosedAhead(u, name)
  {
    x := GtSplit(z, f);
    NormalizeHead(z);
    var rest := z[f + 1..];
    u := Normalize(rest);
    ClosedKept(rest, name);
    GtHead(z, nz, x, u);
  }

  lemma GtHead(z: String, nz: String, x: String, u: String)
    requires z != [] && IsSpace(z[0]) && nz == x + (">" + u) && nz != [] && nz[0] == z[0]
    ensures x != [] && x[0] == z[0]
  {
  }

  lemma TagJoin(t: String, c: char, name: String, nz: String, x: String, u: String)
    requires c == '<' && t == [c] + (name + nz) && nz == x + (">" + u)
    ensures t == "<" + name + (x + (">" + u))
  {
  }

  lemma NoneFinal(named: Option<Hit>, closed: bool, h: Hit)
    requires named == (if closed then None else Some(h)) && closed
    ensures named.None?
  {
  }

  // ---------------------------------------------------------------------
  // Idempotence

  /** _normalizeVoidElements applied to its own output changes nothing. */
  lemma {:induction false} NormalizeIdempotent(s: String)
    ensures Normalize(Normalize(s)) == Normalize(s)
    decreases |s|
  {
    if s == [] {
    } else if NormalizeAt(s).Some? {
      var h := NormalizeAt(s).value;
      var u := Normalize(s[h.len..]);
      NormalizeIdempotent(s[h.len..]);
      NormalizeHit(s, h);
      HitKept(s);
      NormalizeHit(h.out + u, Hit(|h.out|, h.out));
      IdemStep(Normalize(s), h.out, u, Normalize(h.out + u), Normalize((h.out + u)[|h.out|..]));
    } else {
      var u := Normalize(s[1..]);
      NormalizeIdempotent(s[1..]);
      NormalizeCopy(s);
      MissKept(s);
      NormalizeCopy([s[0]] + u);
      IdemStep(Normalize(s), [s[0]], u, Normalize([s[0]] + u), Normalize(([s[0]] + u)[1..]));
    }
  }

  lemma IdemStep(ns: String, out: String, u: String, nn: String, nu: String)
    requires ns == out + u && nn == out + nu && (out + u)[|out|..] == u
    ensures nn == ns <==> nu == u
  {
  }
}
