/** Putting raw blocks back: Inky._reInjectRaws (index.ts) replaces, for
    i = 0, 1, ..., the first occurrence of `###RAW<i>###` by raws[i]. */
module RawReinject {
  import opened TextUtil
  import opened RawShield

  /** The first position at or after k where `w` occurs in `s`, as
      String.prototype.indexOf(w, k) finds it. */
  function IndexFrom(s: String, w: String, k: nat): (r: Option<nat>)
    ensures r.Some? ==> k <= r.value && HasAt(s, r.value, w)
    decreases |s| - k
  {
    if k + |w| > |s| then None
    else if HasAt(s, k, w) then Some(k)
    else IndexFrom(s, w, k + 1)
  }

  function IndexOf(s: String, w: String): Option<nat>
  {
    IndexFrom(s, w, 0)
  }

  /** IndexFrom finds no occurrence before the one it returns, and returns
      None only when there is none at all from k on. */
  lemma {:induction false} IndexFromLeftmost(s: String, w: String, k: nat, j: nat)
    requires k <= j && HasAt(s, j, w)
    ensures IndexFrom(s, w, k).Some? && IndexFrom(s, w, k).value <= j
    decreases j - k
  {
    if !HasAt(s, k, w) {
      IndexFromLeftmost(s, w, k + 1, j);
    }
  }

  /** The occurrence at m is found when none starts in [k, m). */
  lemma {:induction false} IndexFromSkip(s: String, w: String, k: nat, m: nat)
    requires k <= m && HasAt(s, m, w)
    requires forall j :: k <= j < m ==> !HasAt(s, j, w)
    ensures IndexFrom(s, w, k) == Some(m)
    decreases m - k
  {
    if k < m {
      IndexFromSkip(s, w, k + 1, m);
    }
  }

  /** A '#'-led needle is found right after a '#'-free prefix. */
  lemma IndexOfAfterHashFree(a: String, w: String, c: String)
    requires '#' !in a && |w| >= 1 && w[0] == '#'
    ensures IndexOf(a + w + c, w) == Some(|a|)
  {
    var s := a + w + c;
    assert s[|a|..|a| + |w|] == w;
    forall j | 0 <= j < |a|
      ensures !HasAt(s, j, w)
    {
      assert s[j] == a[j];
      HasAtFirst(s, j, w);
    }
    IndexFromSkip(s, w, 0, |a|);
  }

  /** An occurrence of `w` at `j` starts with `w`'s first character. */
  lemma HasAtFirst(s: String, j: nat, w: String)
    requires |w| >= 1
    ensures HasAt(s, j, w) ==> j < |s| && s[j] == w[0]
  {
    if HasAt(s, j, w) {
      assert s[j..j + |w|][0] == w[0];
    }
  }

  /** `s` with the first occurrence of `w` replaced by `r`, literally. */
  function ReplaceFirst(s: String, w: String, r: String): String
  {
    match IndexOf(s, w)
    case None => s
    case Some(k) => s[..k] + r + s[k + |w|..]
  }

  /** The loop of _reInjectRaws from index i on, with literal replacement. */
  function ReinjectLoop(str: String, raws: seq<String>, i: nat): String
    decreases |raws| - i
  {
    if i >= |raws| then str
    else ReinjectLoop(ReplaceFirst(str, Placeholder(i), raws[i]), raws, i + 1)
  }

  method ReInjectRaws(text: String, raws: seq<String>) returns (str: String)
    ensures str == ReinjectLoop(text, raws, 0)
  {
    str := text;
    for i := 0 to |raws|
      invariant ReinjectLoop(str, raws, i) == ReinjectLoop(text, raws, 0)
    {
      str := ReplaceFirst(str, Placeholder(i), raws[i]);
    }
  }


  lemma NoHashSlice(y: String, lo: nat, hi: nat)
    requires lo <= hi <= |y| && '#' !in y
    ensures '#' !in y[lo..hi] && '#' !in y[..lo]
  {
    assert forall c :: c in y[lo..hi] ==> c in y;
    assert forall c :: c in y[..lo] ==> c in y;
  }

  /** The round trip from position k of the placeholders on, with a
      '#'-free prefix x already restored. */
  lemma {:induction false} RoundTripFrom(x: String, y: String, raws: seq<String>, k: nat)
    requires '#' !in x && '#' !in y
    requires |raws| == k + |Inners(y)| && raws[k..] == Inners(y)
    ensures ReinjectLoop(x + Shielded(y, k), raws, k) == x + Stripped(y)
    decreases |y|
  {
    match FindRaw(y)
    case None =>
      ReferenceDone(y, k);
    case Some(b) =>
      ReferenceStep(y, b, k);
      var inner := y[b.innerStart..b.innerEnd];
      var a := x + y[..b.start];
      var rest := Shielded(y[b.end..], k + 1);
      NoHashSlice(y, b.innerStart, b.innerEnd);
      NoHashSlice(y, b.start, b.end);
      NoHashSlice(y, b.end, |y|);
      assert raws[k] == raws[k..][0] == inner;
      assert '#' !in a;
      assert x + Shielded(y, k) == a + Placeholder(k) + rest by {
        ConcatAssoc(x, y[..b.start], Placeholder(k), rest);
      }
      IndexOfAfterHashFree(a, Placeholder(k), rest);
      assert (a + Placeholder(k) + rest)[|a| + |Placeholder(k)|..] == rest;
      assert (a + Placeholder(k) + rest)[..|a|] == a;
      assert ReplaceFirst(x + Shielded(y, k), Placeholder(k), raws[k]) == (a + inner) + rest;
      assert raws[k + 1..] == raws[k..][1..];
      RoundTripFrom(a + inner, y[b.end..], raws, k + 1);
      assert a + inner + Stripped(y[b.end..]) == x + Stripped(y) by {
        ConcatAssoc(x, y[..b.start], inner, Stripped(y[b.end..]));
      }
  }

  /** Reinjecting what _extractRaws produced gives the text with every raw
      block's tags removed and its inner text restored verbatim, provided
      the text has no '#' (otherwise a raw text or the surrounding text can
      spell out a placeholder that is found first). */
  lemma RawRoundTrip(t: String)
    requires '#' !in t
    ensures ReinjectLoop(Shielded(t, 0), Inners(t), 0) == Stripped(t)
  {
    assert [] + Shielded(t, 0) == Shielded(t, 0);
    assert Inners(t)[0..] == Inners(t);
    RoundTripFrom([], t, Inners(t), 0);
    assert [] + Stripped(t) == Stripped(t);
  }

  /* String.prototype.replace with a string pattern, as _reInjectRaws
     actually calls it: the replacement text is not taken literally but
     goes through GetSubstitution, where `$$` stands for `$`, `$&` for the
     matched text, `$`` for the text before the match and `$'` for the text
     after it. With a string pattern there are no capture groups, so `$1`
     or `$<` stay literal. */

  /** GetSubstitution for a match with no capture groups. */
  function Expand(r: String, before: String, matched: String, after: String): (e: String)
    decreases |r|
  {
    if |r| == 0 then []
    else if r[0] == '$' && |r| >= 2 && r[1] in "$&`'" then
      (if r[1] == '$' then "$" else if r[1] == '&' then matched
       else if r[1] == '`' then before else after)
      + Expand(r[2..], before, matched, after)
    else [r[0]] + Expand(r[1..], before, matched, after)
  }

  /** A replacement text without `$` is inserted as it is. */
  lemma {:induction false} ExpandLiteral(r: String, before: String, matched: String, after: String)
    requires '$' !in r
    ensures Expand(r, before, matched, after) == r
    decreases |r|
  {
    if |r| > 0 {
      assert '$' !in r[1..] by {
        assert forall c :: c in r[1..] ==> c in r;
      }
      ExpandLiteral(r[1..], before, matched, after);
      assert r == [r[0]] + r[1..];
    }
  }

  function JsReplaceFirst(s: String, w: String, r: String): String
  {
    match IndexOf(s, w)
    case None => s
    case Some(k) => s[..k] + Expand(r, s[..k], w, s[k + |w|..]) + s[k + |w|..]
  }

  /** With no `$` in the replacement, String.prototype.replace is literal. */
  lemma ReplaceLiteral(s: String, w: String, r: String)
    requires '$' !in r
    ensures JsReplaceFirst(s, w, r) == ReplaceFirst(s, w, r)
  {
    if IndexOf(s, w).Some? {
      var k := IndexOf(s, w).value;
      ExpandLiteral(r, s[..k], w, s[k + |w|..]);
    }
  }

  /** The loop of _reInjectRaws as written. */
  function ReinjectAsWritten(str: String, raws: seq<String>, i: nat): String
    decreases |raws| - i
  {
    if i >= |raws| then str
    else ReinjectAsWritten(JsReplaceFirst(str, Placeholder(i), raws[i]), raws, i + 1)
  }

  /** As written and literal reinjection agree while no raw text holds a `$`. */
  lemma {:induction false} AsWrittenAgrees(str: String, raws: seq<String>, i: nat)
    requires forall j :: 0 <= j < |raws| ==> '$' !in raws[j]
    ensures ReinjectAsWritten(str, raws, i) == ReinjectLoop(str, raws, i)
    decreases |raws| - i
  {
    if i < |raws| {
      ReplaceLiteral(str, Placeholder(i), raws[i]);
      AsWrittenAgrees(JsReplaceFirst(str, Placeholder(i), raws[i]), raws, i + 1);
    }
  }

  /** The one raw block of `<raw>$&</raw>` spans the whole text. */
  lemma DollarBlock()
    ensures FindRaw("<raw>$&</raw>") == Some(Block(0, 5, 7, 13))
  {
    var t := "<raw>$&</raw>";
    assert OpenEnd(t, 0) == Some(5);
    assert CloseEnd(t, 5).None? && CloseEnd(t, 6).None?;
    assert CloseEnd(t, 7) == Some(13);
    assert ScanClose(t, 7) == Some((7, 13));
    assert ScanClose(t, 5) == Some((7, 13));
    assert MatchAt(t, 0) == Some(Block(0, 5, 7, 13));
  }

  /** Shielding `<raw>$&</raw>` leaves one placeholder and one inner text `$&`. */
  lemma DollarShielded()
    ensures var t := "<raw>$&</raw>";
      && Shielded(t, 0) == "###RAW0###"
      && Inners(t) == ["$&"]
      && Stripped(t) == "$&"
  {
    var t := "<raw>$&</raw>";
    DollarBlock();
    assert FindRaw(t[13..]).None?;
    assert Placeholder(0) == "###RAW0###";
    ReferenceStep(t, Block(0, 5, 7, 13), 0);
    ReferenceDone(t[13..], 1);
    assert t[5..7] == "$&";
  }

  /** Putting `$&` back for the lone placeholder: as written, the placeholder stays. */
  lemma DollarReinjected()
    ensures var p := "###RAW0###";
      && ReinjectAsWritten(p, ["$&"], 0) == p
      && ReinjectLoop(p, ["$&"], 0) == "$&"
  {
    var p := "###RAW0###";
    assert Placeholder(0) == p;
    assert IndexOf(p, p) == Some(0);
    assert Expand("$&", [], p, []) == p;
    assert JsReplaceFirst(p, p, "$&") == p;
    assert ReplaceFirst(p, p, "$&") == "$&";
  }

  /** `<raw>$&</raw>` is meant to come out as `$&`; as written, `$&` is read
      as "the matched text", so the placeholder itself comes back. */
  lemma DollarAmpersandLost()
    ensures var t := "<raw>$&</raw>";
      && Stripped(t) == "$&"
      && ReinjectAsWritten(Shielded(t, 0), Inners(t), 0) == "###RAW0###"
      && ReinjectLoop(Shielded(t, 0), Inners(t), 0) == "$&"
  {
    DollarShielded();
    DollarReinjected();
  }
}
