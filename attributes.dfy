// The attribute carry-set: the attributes of a custom tag that are copied
// verbatim onto the generated table markup (index.ts, getAttrs).
module Attributes {
  import opened TextUtil

  /** One attribute of an element, in the order the parser reports it. */
  datatype Attribute = Attribute(name: String, value: String)

  /** The value of the attribute `name`, as element.attr(name) reads it:
      the first attribute of that name, None when there is none. */
  function Lookup(attrs: seq<Attribute>, name: String): (r: Option<String>)
    ensures r.Some? <==> exists i :: 0 <= i < |attrs| && attrs[i].name == name
    ensures r.Some? ==> Attribute(name, r.value) in attrs
  {
    if attrs == [] then None
    else if attrs[0].name == name then Some(attrs[0].value)
    else
      var r := Lookup(attrs[1..], name);
      assert forall i :: 1 <= i < |attrs| ==> attrs[i] == attrs[1..][i - 1];
      r
  }

  /** An attribute value JavaScript treats as true: present and not empty. */
  predicate Truthy(v: Option<String>)
  {
    v.Some? && v.value != []
  }

  /** The caller's own classes, split on single spaces. */
  function CallerClasses(attrs: seq<Attribute>): seq<String>
  {
    var cls := Lookup(attrs, "class");
    if Truthy(cls) then Split(cls.value, ' ') else []
  }

  /** Attributes consumed by the expansion rules themselves. */
  const IgnoredAttributes: seq<String> :=
    ["class", "id", "href", "size", "size-sm", "size-lg", "large", "no-expander", "small", "target"]

  predicate IsIgnored(name: String)
  {
    name in IgnoredAttributes
  }

  /** The text one carried attribute contributes: ` key="value"`. */
  function Fragment(a: Attribute): (r: String)
    ensures r == [' '] + a.name + ['='] + ['"'] + a.value + ['"']
  {
    " " + a.name + "=" + "\"" + a.value + "\""
  }

  /** The carried attributes, in their original order. */
  function Carried(attrs: seq<Attribute>): (r: seq<Attribute>)
    ensures |r| <= |attrs|
  {
    if attrs == [] then []
    else
      var last := attrs[|attrs| - 1];
      Carried(attrs[..|attrs| - 1]) + (if IsIgnored(last.name) then [] else [last])
  }

  /** The fragments of `attrs`, concatenated in order. */
  function Render(attrs: seq<Attribute>): String
  {
    if attrs == [] then [] else Render(attrs[..|attrs| - 1]) + Fragment(attrs[|attrs| - 1])
  }

  /** getAttrs: the string of carried attributes to splice into a generated tag. */
  method GetAttrs(attrs: seq<Attribute>) returns (result: String)
    ensures result == Render(Carried(attrs))
  {
    result := "";
    for i := 0 to |attrs|
      invariant result == Render(Carried(attrs[..i]))
    {
      var a := attrs[i];
      CarriedStep(attrs, i);
      if !IsIgnored(a.name) {
        RenderSnoc(Carried(attrs[..i]), a);
        result := result + Fragment(a);
      } else {
        assert Carried(attrs[..i]) + [] == Carried(attrs[..i]);
      }
    }
    assert attrs[..|attrs|] == attrs;
  }

  lemma CarriedStep(attrs: seq<Attribute>, i: nat)
    requires i < |attrs|
    ensures Carried(attrs[..i + 1]) == Carried(attrs[..i]) + (if IsIgnored(attrs[i].name) then [] else [attrs[i]])
  {
    assert attrs[..i + 1][..i] == attrs[..i];
  }

  lemma RenderSnoc(attrs: seq<Attribute>, a: Attribute)
    ensures Render(attrs + [a]) == Render(attrs) + Fragment(a)
  {
    assert (attrs + [a])[..|attrs|] == attrs;
  }

  /** `xs` is `ys` with some elements dropped and the order kept. */
  predicate IsSubsequence<T(==)>(xs: seq<T>, ys: seq<T>)
  {
    if xs == [] then true
    else if ys == [] then false
    else if xs[|xs| - 1] == ys[|ys| - 1] then IsSubsequence(xs[..|xs| - 1], ys[..|ys| - 1])
    else IsSubsequence(xs, ys[..|ys| - 1])
  }

  function Count<T(==)>(x: T, s: seq<T>): nat
  {
    if s == [] then 0 else Count(x, s[..|s| - 1]) + (if s[|s| - 1] == x then 1 else 0)
  }

  /** No ignored attribute is ever carried. */
  lemma {:induction false} CarriedNotIgnored(attrs: seq<Attribute>)
    ensures forall a :: a in Carried(attrs) ==> !IsIgnored(a.name)
  {
    if attrs != [] {
      CarriedNotIgnored(attrs[..|attrs| - 1]);
    }
  }

  /** Every attribute that is not ignored is carried exactly as often as it
      occurs, and ignored ones never. */
  lemma {:induction false} CarriedCount(attrs: seq<Attribute>, a: Attribute)
    ensures Count(a, Carried(attrs)) == if IsIgnored(a.name) then 0 else Count(a, attrs)
  {
    if attrs != [] {
      var init := attrs[..|attrs| - 1];
      var last := attrs[|attrs| - 1];
      CarriedCount(init, a);
      var k := if IsIgnored(last.name) then [] else [last];
      CountAppend(a, Carried(init), k);
    }
  }

  lemma {:induction false} CountAppend<T>(x: T, s: seq<T>, t: seq<T>)
    ensures Count(x, s + t) == Count(x, s) + Count(x, t)
  {
    if t != [] {
      assert (s + t)[..|s + t| - 1] == s + t[..|t| - 1];
      assert (s + t)[|s + t| - 1] == t[|t| - 1];
      CountAppend(x, s, t[..|t| - 1]);
    } else {
      assert s + t == s;
    }
  }

  /** The carried attributes keep the order of the element's attributes. */
  lemma {:induction false} CarriedIsSubsequence(attrs: seq<Attribute>)
    ensures IsSubsequence(Carried(attrs), attrs)
  {
    if attrs != [] {
      var init := attrs[..|attrs| - 1];
      var last := attrs[|attrs| - 1];
      CarriedIsSubsequence(init);
      if IsIgnored(last.name) {
        assert Carried(attrs) == Carried(init);
        SubsequenceDropLast(Carried(init), attrs);
      } else {
        var c := Carried(init) + [last];
        assert Carried(attrs) == c;
        assert c[..|c| - 1] == Carried(init);
        assert c[|c| - 1] == attrs[|attrs| - 1];
      }
    }
  }

  /** A subsequence of a prefix is a subsequence of the whole. */
  lemma {:induction false} SubsequenceDropLast<T>(xs: seq<T>, ys: seq<T>)
    requires ys != []
    requires IsSubsequence(xs, ys[..|ys| - 1])
    ensures IsSubsequence(xs, ys)
    decreases |ys|, |xs|
  {
    if xs != [] && xs[|xs| - 1] == ys[|ys| - 1] {
      SubsequenceShorter(xs, ys[..|ys| - 1]);
    }
  }

  /** Dropping the last element of a subsequence keeps it a subsequence. */
  lemma {:induction false} SubsequenceShorter<T>(xs: seq<T>, ys: seq<T>)
    requires xs != []
    requires IsSubsequence(xs, ys)
    ensures IsSubsequence(xs[..|xs| - 1], ys)
    decreases |ys|, |xs|
  {
    var xs', ys' := xs[..|xs| - 1], ys[..|ys| - 1];
    if xs[|xs| - 1] == ys[|ys| - 1] {
      if xs' != [] {
        SubsequenceDropLast(xs', ys);
      }
    } else {
      SubsequenceShorter(xs, ys');
      if xs' != [] {
        SubsequenceDropLast(xs', ys);
      }
    }
  }
}
